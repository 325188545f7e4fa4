/**
 The directory operations of the log: what appending, starting a file,
 replacing a group and removing a file make of a directory that holds a log.
 */
module LogSteps {
  import opened Bytes
  import opened Wire
  import opened LogCodec
  import opened LogFiles
  import opened Recovery

  // ---------------------------------------------------------------------
  // Appending to the active file

  /** Records with consecutive revisions. */
  function Numbered(first: nat, records: seq<WireRecord>): (entries: seq<Entry>)
    ensures |entries| == |records|
    ensures forall i :: 0 <= i < |entries| ==> entries[i] == Entry(first + i, records[i])
  {
    seq(|records|, i requires 0 <= i < |records| => Entry(first + i, records[i]))
  }

  lemma {:induction false} KeptAppended(log: seq<WireRecord>, more: seq<WireRecord>, dropped: set<nat>)
    requires UpTo(dropped, |log|)
    ensures Kept(log + more, |log| + 1, |log| + |more|, dropped) == Numbered(|log| + 1, more)
    decreases |more|
  {
    if more != [] {
      var m := |more| - 1;
      KeptAppended(log, more[..m], dropped);
      assert log + more == (log + more[..m]) + [more[m]];
      KeptGrows(log + more[..m], [more[m]], |log| + 1, |log| + m, dropped);
      assert Numbered(|log| + 1, more) == Numbered(|log| + 1, more[..m]) + [Entry(|log| + |more|, more[m])];
    }
  }

  /** The active segment reaching to `n`. */
  function Grown(segs: seq<Segment>, n: nat): seq<Segment>
    requires segs != []
  {
    segs[..|segs| - 1] + [segs[|segs| - 1].(last := n)]
  }

  lemma GrownContiguous(segs: seq<Segment>, n: nat, m: nat)
    requires Contiguous(segs, n) && segs != [] && n <= m
    ensures Contiguous(Grown(segs, m), m)
    ensures SegNames(segs)[..|segs| - 1] == SegNames(Grown(segs, m))[..|segs| - 1]
    ensures !segs[|segs| - 1].sparse ==> SegNames(Grown(segs, m)) == SegNames(segs)
  {
    var g := Grown(segs, m);
    forall i | 0 <= i < |g|
      ensures SegmentOk(g[i], m)
    {
      assert SegmentOk(segs[i], n);
    }
    forall i | 0 <= i < |g| - 1
      ensures g[i].first <= g[i].last && g[i + 1].first == g[i].last + 1
    {
      assert segs[i].first <= segs[i].last && segs[i + 1].first == segs[i].last + 1;
    }
  }

  /** A closed segment holds what it held. */
  lemma HoldsGrown(d: Directory, s: Segment, log: seq<WireRecord>, more: seq<WireRecord>, dropped: set<nat>,
                   tail: Bytestring)
    requires 0 < s.first && s.last <= |log| && LogFits(log) && LogFits(log + more)
    requires Holds(d, s, log, dropped, tail)
    ensures Holds(d, s, log + more, dropped, tail)
  {
    hide LogFits, Kept;
    KeptGrows(log, more, s.first, s.last, dropped);
  }

  lemma LogFitsPrefix(log: seq<WireRecord>, more: seq<WireRecord>)
    requires LogFits(log + more)
    ensures LogFits(log)
  {
    forall i | 0 <= i < |log|
      ensures Encodable(i + 1, log[i])
    {
      assert (log + more)[i] == log[i];
    }
  }

  lemma NumberedFits(log: seq<WireRecord>, more: seq<WireRecord>)
    requires LogFits(log + more)
    ensures EntriesOk(Numbered(|log| + 1, more))
  {
    forall i | 0 <= i < |more|
      ensures Encodable(|log| + 1 + i, more[i])
    {
      assert (log + more)[|log| + i] == more[i];
    }
  }

  /** The active file's bytes after an append of which perhaps only part arrived. */
  ghost function Appended(d: Directory, a: Name, log: seq<WireRecord>, more: seq<WireRecord>, tail: Bytestring): Directory
    requires a in d && LogFits(log + more)
  {
    NumberedFits(log, more);
    EntriesAreRecords(Numbered(|log| + 1, more));
    d[a := d[a] + Frames(Numbered(|log| + 1, more)) + tail]
  }

  lemma ActiveHolds(d: Directory, s: Segment, log: seq<WireRecord>, dropped: set<nat>, more: seq<WireRecord>,
                    tail: Bytestring)
    requires 0 < s.first && s.first - 1 <= s.last == |log| && !s.sparse && LogFits(log) && LogFits(log + more)
    requires Holds(d, s, log, dropped, []) && UpTo(dropped, |log|)
    ensures Holds(Appended(d, SegName(s), log, more, tail), s.(last := |log| + |more|), log + more, dropped, tail)
  {
    hide LogFits, Kept, Frames, EntriesOk, Numbered;
    var n := |log| + |more|;
    KeptSplits(log + more, s.first, |log|, n, dropped);
    KeptAppended(log, more, dropped);
    KeptGrows(log, more, s.first, |log|, dropped);
    KeptFits(log, s.first, |log|, dropped);
    NumberedFits(log, more);
    var has, add := Kept(log, s.first, |log|, dropped), Numbered(|log| + 1, more);
    EntriesAreRecords(has);
    EntriesAreRecords(add);
    FileAppend(has, add);
  }

  /** Each segment of the grown layout is held. */
  lemma AppendHolds(d: Directory, segs: seq<Segment>, log: seq<WireRecord>, dropped: set<nat>, more: seq<WireRecord>,
                    tail: Bytestring, i: nat)
    requires Layout(d, segs, log, dropped, []) && i < |segs| && !segs[|segs| - 1].sparse
    requires LogFits(log + more) && UpTo(dropped, |log|)
    ensures SegName(segs[|segs| - 1]) in d
    ensures var g := Grown(segs, |log| + |more|)[i];
            && 0 < g.first && g.last <= |log| + |more| && Whole(g, dropped)
            && Holds(Appended(d, SegName(segs[|segs| - 1]), log, more, tail), g, log + more, dropped,
                     if i == |segs| - 1 then tail else [])
  {
    hide Content, LogFits, Appended, Holds;
    var k := |segs| - 1;
    LayoutHas(d, segs, log, dropped, [], k);
    LayoutHas(d, segs, log, dropped, [], i);
    ActiveIs(segs, |log|);
    if i == k {
      ActiveHolds(d, segs[k], log, dropped, more, tail);
    } else {
      HoldsGrown(d, segs[i], log, more, dropped, []);
      SegmentsAscend(segs, |log|, i, k);
      AppendedElse(d, segs[k], segs[i], log, more, dropped, tail);
    }
  }

  /** A batch appended to the active file, with part of another record after it. */
  lemma LayoutAppend(d: Directory, segs: seq<Segment>, log: seq<WireRecord>, dropped: set<nat>, more: seq<WireRecord>,
                     tail: Bytestring)
    requires Layout(d, segs, log, dropped, []) && segs != [] && !segs[|segs| - 1].sparse
    requires LogFits(log + more) && Torn(tail) && UpTo(dropped, |log|)
    ensures SegName(segs[|segs| - 1]) in d
    ensures Layout(Appended(d, SegName(segs[|segs| - 1]), log, more, tail), Grown(segs, |log| + |more|), log + more, dropped, tail)
  {
    hide LogFits, Torn, Appended, Holds, Contiguous;
    var n := |log| + |more|;
    var g := Grown(segs, n);
    AppendHolds(d, segs, log, dropped, more, tail, |segs| - 1);
    GrownContiguous(segs, |log|, n);
    GrownBounds(segs, |log|, n);
    forall i | 0 <= i < |g|
      ensures Whole(g[i], dropped)
      ensures Holds(Appended(d, SegName(segs[|segs| - 1]), log, more, tail), g[i], log + more, dropped,
          if i == |g| - 1 then tail else [])
    {
      AppendHolds(d, segs, log, dropped, more, tail, i);
    }
  }

  lemma GrownBounds(segs: seq<Segment>, n: nat, m: nat)
    requires Contiguous(segs, n) && segs != [] && n <= m
    ensures forall i :: 0 <= i < |segs| ==> 0 < Grown(segs, m)[i].first && Grown(segs, m)[i].last <= m
  {
  }

  lemma ActiveIs(segs: seq<Segment>, n: nat)
    requires Contiguous(segs, n) && segs != []
    ensures var s := segs[|segs| - 1]; 0 < s.first && s.first - 1 <= s.last == n
  {
  }

  lemma AppendedElse(d: Directory, active: Segment, s: Segment, log: seq<WireRecord>, more: seq<WireRecord>,
                     dropped: set<nat>, tail: Bytestring)
    requires 0 < s.first < active.first && s.last <= |log| && LogFits(log + more)
    requires SegName(active) in d && Holds(d, s, log + more, dropped, [])
    ensures Holds(Appended(d, SegName(active), log, more, tail), s, log + more, dropped, [])
  {
    hide LogFits, Content, File, Numbered;
  }

  /** The bytes of a batch, as far as they arrived: whole records and part of one more. */
  lemma ArrivedIs(log: seq<WireRecord>, batch: seq<WireRecord>, c: nat) returns (j: nat, tail: Bytestring)
    requires LogFits(log + batch)
    requires EntriesOk(Numbered(|log| + 1, batch))
    requires forall i :: 0 <= i < |batch| ==> RecordOk(batch[i])
    requires c <= |Frames(Numbered(|log| + 1, batch))|
    ensures j <= |batch| && Torn(tail) && LogFits(log + batch[..j])
    ensures Frames(Numbered(|log| + 1, batch))[..c] == Frames(Numbered(|log| + 1, batch[..j])) + tail
  {
    hide RecordOk, Encodable, Frames, Torn, LogFits, EntriesOk;
    var all := Numbered(|log| + 1, batch);
    FramesCut(all, c);
    j := WholeBefore(all, c);
    tail := Frames(all)[|Frames(all[..j])|..c];
    assert all[..j] == Numbered(|log| + 1, batch[..j]);
    assert log + batch == (log + batch[..j]) + batch[j..];
    LogFitsPrefix(log + batch[..j], batch[j..]);
  }

  /** Where a write of a batch was cut off. */
  ghost function Cut(d: Directory, a: Name, log: seq<WireRecord>, batch: seq<WireRecord>, c: nat): Directory
    requires a in d && LogFits(log + batch)
  {
    NumberedFits(log, batch);
    EntriesAreRecords(Numbered(|log| + 1, batch));
    var bytes := Frames(Numbered(|log| + 1, batch));
    d[a := d[a] + bytes[..if c < |bytes| then c else |bytes|]]
  }

  lemma CutIsAppended(d: Directory, a: Name, log: seq<WireRecord>, batch: seq<WireRecord>, c: nat) returns (j: nat,
                      tail: Bytestring)
    requires a in d && LogFits(log + batch)
    ensures j <= |batch| && Torn(tail) && LogFits(log + batch[..j])
    ensures Cut(d, a, log, batch, c) == Appended(d, a, log, batch[..j], tail)
  {
    hide Frames, Torn, LogFits, Numbered, EntriesOk, RecordOk;
    NumberedFits(log, batch);
    EntriesAreRecords(Numbered(|log| + 1, batch));
    var bytes := Frames(Numbered(|log| + 1, batch));
    NumberedOk(log, batch);
    j, tail := ArrivedIs(log, batch, if c < |bytes| then c else |bytes|);
    NumberedFits(log, batch[..j]);
    EntriesAreRecords(Numbered(|log| + 1, batch[..j]));
    Assoc(d[a], Frames(Numbered(|log| + 1, batch[..j])), tail);
  }

  lemma NumberedOk(log: seq<WireRecord>, batch: seq<WireRecord>)
    requires LogFits(log + batch)
    ensures forall i :: 0 <= i < |batch| ==> RecordOk(batch[i])
  {
    hide RecordOk;
    forall i | 0 <= i < |batch|
      ensures RecordOk(batch[i])
    {
      assert (log + batch)[|log| + i] == batch[i];
      EncodableIsOk(|log| + i + 1, batch[i]);
    }
  }

  lemma EncodableIsOk(revision: nat, r: WireRecord)
    requires Encodable(revision, r)
    ensures RecordOk(r)
  {
  }

  lemma AppendedNames(d: Directory, segs: seq<Segment>, n: nat, m: nat, log: seq<WireRecord>, more: seq<WireRecord>,
                      tail: Bytestring)
    requires Contiguous(segs, n) && n <= m && NoOthers(d, segs) && segs != [] && !segs[|segs| - 1].sparse
    requires SegName(segs[|segs| - 1]) in d && LogFits(log + more)
    ensures NoOthers(Appended(d, SegName(segs[|segs| - 1]), log, more, tail), Grown(segs, m))
  {
    hide Contiguous, LogFits, Frames, Numbered, Grown;
    GrownContiguous(segs, n, m);
    assert SegNames(segs)[|segs| - 1] == SegName(segs[|segs| - 1]);
  }

  /** A group does not reach the active segment, so merging it and growing that one do not meet. */
  lemma MergedGrown(segs: seq<Segment>, i: nat, j: nat, m: nat)
    requires i < j < |segs|
    ensures |Grown(segs, m)| == |segs| && Grown(segs, m)[i..j] == segs[i..j] && Grown(segs, m)[i] == segs[i]
    ensures |Merged(segs, i, j)| == |segs| - (j - i) + 1
    ensures Merged(segs, i, j)[|Merged(segs, i, j)| - 1] == segs[|segs| - 1]
    ensures Merged(Grown(segs, m), i, j) == Grown(Merged(segs, i, j), m)
  {
  }

  /** An append in the middle of a group rewrite. */
  lemma MidAppend(d: Directory, segs: seq<Segment>, i: nat, j: nat, log: seq<WireRecord>, dropped: set<nat>,
                  gone: set<nat>, more: seq<WireRecord>, tail: Bytestring)
    requires MidRewrite(d, segs, i, j, log, dropped, gone, []) && !segs[|segs| - 1].sparse
    requires LogFits(log + more) && Torn(tail)
    ensures SegName(segs[|segs| - 1]) in d
    ensures MidRewrite(Appended(d, SegName(segs[|segs| - 1]), log, more, tail), Grown(segs, |log| + |more|), i, j,
                       log + more, dropped, gone, tail)
  {
    hide Contiguous, LogFits, Layout, Merged, Grown, Torn, Frames, Numbered, UpTo;
    var n := |log| + |more|;
    var a := SegName(segs[|segs| - 1]);
    MergedGrown(segs, i, j, n);
    LayoutAppend(d, Merged(segs, i, j), log, gone, more, tail);
    GrownContiguous(segs, |log|, n);
    UpToMore(gone, |log|, n);
    MergedAt(segs, i, j, i);
    MergedAt(Grown(segs, n), i, j, i);
    MergedContiguous(segs, |log|, i, j);
    GrownContiguous(Merged(segs, i, j), |log|, n);
    var e := Appended(d, a, log, more, tail);
    if HasTie(d, segs, i, j) {
      UpToLess(dropped, gone, |log|);
      LayoutAppend(d, segs, log, dropped, more, tail);
    }
  }

  lemma UpToLess(a: set<nat>, b: set<nat>, n: nat)
    requires a <= b && UpTo(b, n)
    ensures UpTo(a, n)
  {
  }

  lemma OriginalGrown(segs: seq<Segment>, i: nat, group: seq<Segment>, m: nat)
    requires StandsFor(segs, i, group)
    ensures StandsFor(Grown(segs, m), i, group)
    ensures Original(Grown(segs, m), i, group) == Grown(Original(segs, i, group), m)
  {
  }

  /** A batch appended to the active file of a directory in use, with part of another record after it. */
  lemma TidyAppend(d: Directory, segs: seq<Segment>, log: seq<WireRecord>, dropped: set<nat>, left: Leftover,
                   more: seq<WireRecord>, tail: Bytestring)
    requires Tidy(d, segs, log, dropped, [], left) && segs != [] && !segs[|segs| - 1].sparse
    requires LogFits(log + more) && Torn(tail)
    ensures SegName(segs[|segs| - 1]) in d
    ensures Tidy(Appended(d, SegName(segs[|segs| - 1]), log, more, tail), Grown(segs, |log| + |more|), log + more, dropped,
        tail, left)
  {
    hide LogFits, Torn, Layout, NoOthers, MidRewrite, Appended, Grown, Original, UpTo;
    var n := |log| + |more|;
    LayoutAppend(d, segs, log, dropped, more, tail);
    UpToMore(dropped, |log|, n);
    match left
    case Nothing =>
      LayoutContiguous(d, segs, log, dropped, []);
      AppendedNames(d, segs, |log|, n, log, more, tail);
    case Group(i, group, had) =>
      OriginalMerges(segs, i, group);
      OriginalGrown(segs, i, group, n);
      MidAppend(d, Original(segs, i, group), i, i + |group|, log, had, dropped, more, tail);
  }

  /**
   A commit may be cut off anywhere in its write, also in the middle of a group
   rewrite: what was there is found, and a prefix of the batch.
   */
  lemma CutRecovers(d: Directory, segs: seq<Segment>, log: seq<WireRecord>, dropped: set<nat>, left: Leftover,
                    batch: seq<WireRecord>, c: nat)
    requires Tidy(d, segs, log, dropped, [], left) && segs != [] && !segs[|segs| - 1].sparse
    requires LogFits(log + batch)
    ensures SegName(segs[|segs| - 1]) in d
    ensures Recovers(Cut(d, SegName(segs[|segs| - 1]), log, batch, c), |log|, log + batch, dropped)
  {
    hide *;
    TidyLayout(d, segs, log, dropped, [], left);
    LayoutHas(d, segs, log, dropped, [], |segs| - 1);
    var j, tail := CutIsAppended(d, SegName(segs[|segs| - 1]), log, batch, c);
    TidyAppend(d, segs, log, dropped, left, batch[..j], tail);
    assert (log + batch)[..|log| + j] == log + batch[..j];
    TidyRecovers(Appended(d, SegName(segs[|segs| - 1]), log, batch[..j], tail), Grown(segs, |log| + j),
                 |log|, |log| + j, log + batch, dropped, tail, left);
  }

  lemma TidyLayout(d: Directory, segs: seq<Segment>, log: seq<WireRecord>, dropped: set<nat>, tail: Bytestring,
                   left: Leftover)
    requires Tidy(d, segs, log, dropped, tail, left)
    ensures Layout(d, segs, log, dropped, tail) && UpTo(dropped, |log|)
  {
  }

  // ---------------------------------------------------------------------
  // Starting the next file

  lemma NextContiguous(segs: seq<Segment>, n: nat)
    requires Contiguous(segs, n)
    requires segs != [] ==> segs[|segs| - 1].first <= segs[|segs| - 1].last
    ensures Contiguous(segs + [Segment(n + 1, n, false)], n)
    ensures Dense(n + 1) !in SegNames(segs)
  {
    var more := segs + [Segment(n + 1, n, false)];
    forall i | 0 <= i < |more| - 1
      ensures more[i].first <= more[i].last && more[i + 1].first == more[i].last + 1
    {
      if i < |segs| - 1 {
        assert segs[i].first <= segs[i].last && segs[i + 1].first == segs[i].last + 1;
      }
    }
    forall i | 0 <= i < |segs|
      ensures SegNames(segs)[i] != Dense(n + 1)
    {
      if i < |segs| - 1 {
        SegmentsAscend(segs, n, i, |segs| - 1);
      }
    }
  }

  lemma NewHolds(d: Directory, log: seq<WireRecord>, dropped: set<nat>)
    requires LogFits(log)
    ensures Holds(d[Dense(|log| + 1) := MAGIC], Segment(|log| + 1, |log|, false), log, dropped, [])
  {
    hide LogFits;
    var none := Kept(log, |log| + 1, |log|, dropped);
    assert none == [];
    assert Frames([]) == [];
  }

  /** A new active file, holding its header alone. */
  lemma LayoutNext(d: Directory, segs: seq<Segment>, log: seq<WireRecord>, dropped: set<nat>)
    requires Layout(d, segs, log, dropped, [])
    requires segs != [] ==> segs[|segs| - 1].first <= segs[|segs| - 1].last
    ensures Dense(|log| + 1) !in SegNames(segs)
    ensures Layout(d[Dense(|log| + 1) := MAGIC], segs + [Segment(|log| + 1, |log|, false)], log, dropped, [])
  {
    hide Holds, Whole, LogFits, Torn, SegmentOk;
    var more := segs + [Segment(|log| + 1, |log|, false)];
    var e := d[Dense(|log| + 1) := MAGIC];
    NextContiguous(segs, |log|);
    LayoutSame(d, e, segs, log, dropped, []);
    forall i | 0 <= i < |more|
      ensures 0 < more[i].first && more[i].last <= |log|
      ensures Holds(e, more[i], log, dropped, []) && Whole(more[i], dropped)
    {
      if i < |segs| {
        LayoutHas(e, segs, log, dropped, [], i);
      } else {
        NewHolds(d, log, dropped);
        NewWhole(|log|, dropped);
      }
    }
    NothingTorn();
  }

  lemma NewWhole(n: nat, dropped: set<nat>)
    ensures Whole(Segment(n + 1, n, false), dropped)
  {
  }

  lemma MergedNext(segs: seq<Segment>, i: nat, j: nat, s: Segment)
    requires i < j < |segs|
    ensures (segs + [s])[i..j] == segs[i..j] && (segs + [s])[i] == segs[i]
    ensures |Merged(segs, i, j)| == |segs| - (j - i) + 1
    ensures Merged(segs, i, j)[|Merged(segs, i, j)| - 1] == segs[|segs| - 1]
    ensures Merged(segs + [s], i, j) == Merged(segs, i, j) + [s]
  {
  }

  /** A new active file in the middle of a group rewrite; its name is free. */
  lemma MidNext(d: Directory, segs: seq<Segment>, i: nat, j: nat, log: seq<WireRecord>, dropped: set<nat>, gone: set<nat>)
    requires MidRewrite(d, segs, i, j, log, dropped, gone, []) && segs[|segs| - 1].first <= segs[|segs| - 1].last
    ensures Dense(|log| + 1) !in d
    ensures MidRewrite(d[Dense(|log| + 1) := MAGIC], segs + [Segment(|log| + 1, |log|, false)], i, j, log, dropped, gone, [])
  {
    hide Contiguous, Layout, Merged, UpTo;
    var s := Segment(|log| + 1, |log|, false);
    var more := segs + [s];
    MergedNext(segs, i, j, s);
    LayoutNext(d, Merged(segs, i, j), log, gone);
    NextContiguous(segs, |log|);
    if Dense(|log| + 1) in SegNames(segs[i..j]) {
      GroupNames(segs, i, j, Dense(|log| + 1));
    }
    MergedAt(segs, i, j, i);
    MergedAt(more, i, j, i);
    var merged := Merged(segs, i, j);
    NamesNext(merged, s);
    if HasTie(d, segs, i, j) {
      LayoutNext(d, segs, log, dropped);
    }
  }

  lemma NamesNext(segs: seq<Segment>, s: Segment)
    ensures SegNames(segs + [s]) == SegNames(segs) + [SegName(s)]
  {
  }

  lemma OriginalNext(segs: seq<Segment>, i: nat, group: seq<Segment>, s: Segment)
    requires StandsFor(segs, i, group)
    ensures StandsFor(segs + [s], i, group)
    ensures Original(segs + [s], i, group) == Original(segs, i, group) + [s]
  {
  }

  /** A new active file in a directory in use; its name is free. */
  lemma TidyNext(d: Directory, segs: seq<Segment>, log: seq<WireRecord>, dropped: set<nat>, left: Leftover)
    requires Tidy(d, segs, log, dropped, [], left)
    requires segs != [] ==> segs[|segs| - 1].first <= segs[|segs| - 1].last
    ensures Dense(|log| + 1) !in d
    ensures Tidy(d[Dense(|log| + 1) := MAGIC], segs + [Segment(|log| + 1, |log|, false)], log, dropped, [], left)
  {
    hide Layout, MidRewrite, Original, UpTo;
    var s := Segment(|log| + 1, |log|, false);
    LayoutNext(d, segs, log, dropped);
    NamesNext(segs, s);
    match left
    case Nothing =>
    case Group(i, group, had) =>
      OriginalMerges(segs, i, group);
      OriginalNext(segs, i, group, s);
      MidNext(d, Original(segs, i, group), i, i + |group|, log, had, dropped);
  }

  // ---------------------------------------------------------------------
  // Replacing a group of files by one

  /** What a rewrite of the segments drops lies within them. */
  ghost predicate DropsWithin(dropped: set<nat>, gone: set<nat>, first: nat, last: nat) {
    && dropped <= gone
    && forall r :: r in gone && r !in dropped ==> first <= r <= last
  }

  /** The directory with the replacement of a group in place. */
  ghost function Replaced(d: Directory, s: Segment, log: seq<WireRecord>, gone: set<nat>): Directory
    requires 0 < s.first && s.last <= |log| && LogFits(log)
  {
    KeptFits(log, s.first, s.last, gone);
    EntriesAreRecords(Content(s, log, gone));
    d[SegName(s) := File(Content(s, log, gone))]
  }

  lemma ReplacementHolds(d: Directory, s: Segment, log: seq<WireRecord>, gone: set<nat>)
    requires 0 < s.first && s.last <= |log| && LogFits(log)
    ensures Holds(Replaced(d, s, log, gone), s, log, gone, [])
  {
    hide LogFits, Content, File;
  }

  /** A segment away from the group is as it was. */
  lemma ElseHolds(d: Directory, s: Segment, t: Segment, log: seq<WireRecord>, dropped: set<nat>, gone: set<nat>)
    requires 0 < s.first <= s.last <= |log| && 0 < t.first && t.last <= |log| && LogFits(log)
    requires t.last < s.first || s.last < t.first
    requires t.first != s.first && DropsWithin(dropped, gone, s.first, s.last)
    requires Holds(d, t, log, dropped, []) && Whole(t, dropped)
    ensures Holds(Replaced(d, s, log, gone), t, log, gone, []) && Whole(t, gone)
  {
    hide LogFits, Kept, File;
    KeptSame(log, t.first, t.last, dropped, gone);
  }

  lemma RewriteHolds(d: Directory, segs: seq<Segment>, i: nat, j: nat, log: seq<WireRecord>, dropped: set<nat>,
                     gone: set<nat>, k: nat)
    requires Layout(d, segs, log, dropped, []) && i < j < |segs| && k < |segs| - (j - i) + 1
    requires DropsWithin(dropped, gone, segs[i].first, segs[j - 1].last)
    ensures var s := Segment(segs[i].first, segs[j - 1].last, true);
            var t := Merged(segs, i, j)[k];
            && |Merged(segs, i, j)| == |segs| - (j - i) + 1
            && 0 < s.first && s.last <= |log| && 0 < t.first && t.last <= |log|
            && Holds(Replaced(d, s, log, gone), t, log, gone, []) && Whole(t, gone)
  {
    hide *;
    var s := Segment(segs[i].first, segs[j - 1].last, true);
    LayoutContiguous(d, segs, log, dropped, []);
    MergedAt(segs, i, j, k);
    MergedContiguous(segs, |log|, i, j);
    LayoutHas(d, segs, log, dropped, [], i);
    LayoutHas(d, segs, log, dropped, [], j - 1);
    if k == i {
      ReplacementHolds(d, s, log, gone);
      SparseWhole(s, gone);
    } else {
      var x := if k < i then k else k + (j - i) - 1;
      LayoutHas(d, segs, log, dropped, [], x);
      if k < i {
        SegmentsAscend(segs, |log|, x, i);
      } else {
        SegmentsAscend(segs, |log|, j - 1, x);
      }
      ElseHolds(d, s, segs[x], log, dropped, gone);
    }
  }

  lemma SparseWhole(s: Segment, dropped: set<nat>)
    requires s.sparse
    ensures Whole(s, dropped)
  {
  }

  lemma LayoutRewrite(d: Directory, segs: seq<Segment>, i: nat, j: nat, log: seq<WireRecord>, dropped: set<nat>,
                      gone: set<nat>)
    requires Layout(d, segs, log, dropped, []) && i < j < |segs|
    requires DropsWithin(dropped, gone, segs[i].first, segs[j - 1].last)
    ensures 0 < segs[i].first && segs[j - 1].last <= |log| && LogFits(log)
    ensures Layout(Replaced(d, Segment(segs[i].first, segs[j - 1].last, true), log, gone), Merged(segs, i, j), log, gone, [])
  {
    hide Contiguous, Holds, Whole, LogFits, Replaced, Merged, Torn, DropsWithin;
    var m := Merged(segs, i, j);
    LayoutHas(d, segs, log, dropped, [], i);
    LayoutHas(d, segs, log, dropped, [], j - 1);
    var e := Replaced(d, Segment(segs[i].first, segs[j - 1].last, true), log, gone);
    MergedContiguous(segs, |log|, i, j);
    RewriteHolds(d, segs, i, j, log, dropped, gone, 0);
    forall k | 0 <= k < |m|
      ensures 0 < m[k].first && m[k].last <= |log|
      ensures Whole(m[k], gone) && Holds(e, m[k], log, gone, [])
    {
      RewriteHolds(d, segs, i, j, log, dropped, gone, k);
    }
  }

  /** Renaming the replacement into place begins the rewrite. */
  lemma RewriteStarts(d: Directory, segs: seq<Segment>, i: nat, j: nat, log: seq<WireRecord>, dropped: set<nat>,
                      gone: set<nat>)
    requires Tidy(d, segs, log, dropped, [], Nothing) && i < j < |segs|
    requires DropsWithin(dropped, gone, segs[i].first, segs[j - 1].last)
    ensures 0 < segs[i].first && segs[j - 1].last <= |log| && LogFits(log)
    ensures Tidy(Replaced(d, Segment(segs[i].first, segs[j - 1].last, true), log, gone), Merged(segs, i, j), log, gone, [],
                 Group(i, segs[i..j], dropped))
  {
    hide Contiguous, Holds, Whole, LogFits, Layout, Content, File, Merged, Original;
    LayoutContiguous(d, segs, log, dropped, []);
    LayoutRewrite(d, segs, i, j, log, dropped, gone);
    var s := Segment(segs[i].first, segs[j - 1].last, true);
    var e := Replaced(d, s, log, gone);
    MergedAt(segs, i, j, i);
    MergedOriginal(segs, i, j);
    assert SegNames(Merged(segs, i, j))[i] == SegName(s);
    forall a | a in e && IsLogFile(a)
      ensures a in SegNames(Merged(segs, i, j)) || a in SegNames(segs[i..j])
    {
      if a in d {
        NamesSplit(segs, i, j, a);
      }
    }
    if HasTie(e, segs, i, j) {
      TieUntouched(d, segs, i, j, log, dropped, gone);
    }
  }

  lemma MergedOriginal(segs: seq<Segment>, i: nat, j: nat)
    requires i < j < |segs|
    ensures StandsFor(Merged(segs, i, j), i, segs[i..j])
    ensures Original(Merged(segs, i, j), i, segs[i..j]) == segs
    ensures |segs[i..j]| == j - i
  {
  }

  lemma NamesSplit(segs: seq<Segment>, i: nat, j: nat, a: Name)
    requires i < j <= |segs| && a in SegNames(segs)
    ensures a in SegNames(Merged(segs, i, j)) || a in SegNames(segs[i..j])
  {
    hide Merged;
    MergedAt(segs, i, j, 0);
    var x :| 0 <= x < |segs| && SegNames(segs)[x] == a;
    if i <= x < j {
      assert SegNames(segs[i..j])[x - i] == a;
    } else {
      var k := if x < i then x else x - (j - i) + 1;
      MergedAt(segs, i, j, k);
      assert SegNames(Merged(segs, i, j))[k] == a;
    }
  }

  lemma TieUntouched(d: Directory, segs: seq<Segment>, i: nat, j: nat, log: seq<WireRecord>, dropped: set<nat>,
                     gone: set<nat>)
    requires Layout(d, segs, log, dropped, []) && i < j < |segs| && LogFits(log)
    requires 0 < segs[i].first && segs[j - 1].last <= |log|
    requires SegName(segs[i]) != SegName(Segment(segs[i].first, segs[j - 1].last, true))
    ensures Layout(Replaced(d, Segment(segs[i].first, segs[j - 1].last, true), log, gone), segs, log, dropped, [])
  {
    hide Contiguous, Layout, LogFits, Content, File;
    LayoutContiguous(d, segs, log, dropped, []);
    var s := Segment(segs[i].first, segs[j - 1].last, true);
    forall a | a in SegNames(segs) && a in d
      ensures a != SegName(s)
    {
      if a == SegName(s) {
        SegmentNonempty(segs, |log|, i);
        OnlyOneWithin(segs, |log|, i, a);
      }
    }
    LayoutSame(d, Replaced(d, s, log, gone), segs, log, dropped, []);
  }

  /** A file of the group that is not the replacement belongs to no segment of the new layout. */
  lemma GroupNotMerged(segs: seq<Segment>, n: nat, i: nat, j: nat, a: Name)
    requires Contiguous(segs, n) && i < j < |segs| && a in SegNames(segs[i..j])
    requires |Merged(segs, i, j)| > i && a != SegName(Merged(segs, i, j)[i])
    ensures a !in SegNames(Merged(segs, i, j))
  {
    hide Contiguous, Merged;
    MergedAt(segs, i, j, i);
    MergedContiguous(segs, n, i, j);
    GroupCovered(segs, n, i, j, a);
    if a in SegNames(Merged(segs, i, j)) {
      OnlyOneWithin(Merged(segs, i, j), n, i, a);
    }
  }

  /** Removing the files of the group in order carries the rewrite on. */
  lemma RewriteRemoves(d: Directory, segs: seq<Segment>, i: nat, j: nat, log: seq<WireRecord>, dropped: set<nat>,
                       gone: set<nat>, a: Name)
    requires MidRewrite(d, segs, i, j, log, dropped, gone, [])
    requires a in SegNames(segs[i..j]) && |Merged(segs, i, j)| > i && a != SegName(Merged(segs, i, j)[i])
    requires HasTie(d, segs, i, j) ==> a == SegName(segs[i])
    ensures MidRewrite(d - {a}, segs, i, j, log, dropped, gone, [])
  {
    hide Contiguous, Layout, Merged;
    GroupNotMerged(segs, |log|, i, j, a);
    LayoutSame(d, d - {a}, Merged(segs, i, j), log, gone, []);
  }

  /** Removing the next file of the group that is not the replacement itself. */
  lemma TidyRemoves(d: Directory, segs: seq<Segment>, log: seq<WireRecord>, dropped: set<nat>, i: nat,
                    group: seq<Segment>, had: set<nat>, x: nat)
    requires Tidy(d, segs, log, dropped, [], Group(i, group, had)) && x < |group| && SegName(group[x]) != SegName(segs[i])
    requires forall k :: 0 <= k < x && SegNames(group)[k] in d ==> SegNames(group)[k] == SegName(segs[i])
    ensures Tidy(d - {SegName(group[x])}, segs, log, dropped, [], Group(i, group, had))
  {
    hide MidRewrite, Layout, Original, UpTo, Merged;
    var was, a := Original(segs, i, group), SegName(group[x]);
    OriginalMerges(segs, i, group);
    assert SegNames(group)[x] == a && SegNames(group)[0] == SegName(group[0]) && was[i..i + |group|][0] == was[i];
    RewriteRemoves(d, was, i, i + |group|, log, had, dropped, a);
    MidLayout(d - {a}, was, i, i + |group|, log, had, dropped);
  }

  lemma MidLayout(d: Directory, segs: seq<Segment>, i: nat, j: nat, log: seq<WireRecord>, dropped: set<nat>, gone: set<nat>)
    requires MidRewrite(d, segs, i, j, log, dropped, gone, [])
    ensures i < j < |segs| && Layout(d, Merged(segs, i, j), log, gone, [])
  {
  }

  /** Once they are gone, only the new layout is left. */
  lemma TidyEnds(d: Directory, segs: seq<Segment>, log: seq<WireRecord>, dropped: set<nat>, i: nat, group: seq<Segment>,
                 had: set<nat>)
    requires Tidy(d, segs, log, dropped, [], Group(i, group, had))
    requires forall k :: 0 <= k < |group| && SegNames(group)[k] in d ==> SegNames(group)[k] == SegName(segs[i])
    ensures Tidy(d, segs, log, dropped, [], Nothing)
  {
    hide Layout, Original, UpTo, Merged;
    OriginalMerges(segs, i, group);
    assert SegNames(segs)[i] == SegName(segs[i]);
  }

  /** A temporary file is not part of the log. */
  lemma OtherIgnored(d: Directory, e: Directory, segs: seq<Segment>, log: seq<WireRecord>, dropped: set<nat>)
    requires Tidy(d, segs, log, dropped, [], Nothing)
    requires forall a :: IsLogFile(a) ==> (a in d <==> a in e) && (a in d ==> d[a] == e[a])
    ensures Tidy(e, segs, log, dropped, [], Nothing)
  {
    hide Layout;
    LayoutSame(d, e, segs, log, dropped, []);
  }
}
