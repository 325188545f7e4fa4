/**
 Recovery: whatever a crash between two directory operations leaves, opening
 the directory finds the log in it.
 */
module Recovery {
  import opened Bytes
  import opened Wire
  import opened LogCodec
  import opened LogFiles

  // ---------------------------------------------------------------------
  // Which files listing keeps

  /** Where the last of `keep` is among the first `m` names, or -1. */
  function LastOf(names: seq<Name>, keep: seq<Name>, m: nat): (q: int)
    requires m <= |names|
    ensures -1 <= q < m
    ensures q >= 0 ==> names[q] in keep
    ensures forall r :: q < r < m ==> names[r] !in keep
  {
    if m == 0 then -1 else if names[m - 1] in keep then m - 1 else LastOf(names, keep, m - 1)
  }

  /** Those of the first `m` names that are in `keep`. */
  function Those(names: seq<Name>, keep: seq<Name>, m: nat): seq<Name>
    requires m <= |names|
  {
    if m == 0 then []
    else Those(names, keep, m - 1) + if names[m - 1] in keep then [names[m - 1]] else []
  }

  /** A name is to be kept exactly when the last kept name before it does not supersede it. */
  ghost predicate Survivors(names: seq<Name>, keep: seq<Name>) {
    forall p :: 0 <= p < |names| ==> Survives(names, keep, p)
  }

  ghost predicate Survives(names: seq<Name>, keep: seq<Name>, p: nat)
    requires p < |names|
  {
    var q := LastOf(names, keep, p);
    names[p] in keep <==> !(q >= 0 && Supersedes(names[q], names[p]))
  }

  lemma {:induction false} KeepsSurvivors(names: seq<Name>, keep: seq<Name>, m: nat)
    requires m <= |names| && Survivors(names, keep)
    ensures KeepFiles(names[..m]) == Those(names, keep, m)
    ensures var q := LastOf(names, keep, m);
            var kept := Those(names, keep, m);
            if q < 0 then kept == [] else kept != [] && kept[|kept| - 1] == names[q]
  {
    hide Supersedes;
    if m > 0 {
      KeepsSurvivors(names, keep, m - 1);
      assert Survives(names, keep, m - 1);
      assert names[..m][..m - 1] == names[..m - 1];
    }
  }

  ghost predicate FirstsAscend(names: seq<Name>) {
    && (forall i :: 0 <= i < |names| ==> IsLogFile(names[i]))
    && (forall i, j :: 0 <= i < j < |names| ==> names[i].first < names[j].first)
  }

  ghost predicate Sorted(names: seq<Name>) {
    && (forall i :: 0 <= i < |names| ==> IsLogFile(names[i]))
    && (forall i, j :: 0 <= i < j < |names| ==> names[i] != names[j] && names[i].first <= names[j].first)
  }

  lemma ThoseHold(names: seq<Name>, keep: seq<Name>, m: nat, n: Name)
    requires m <= |names|
    ensures n in Those(names, keep, m) <==> n in keep && n in names[..m]
  {
  }

  /** A sorted list holding all of an ascending one holds it in its order. */
  lemma {:induction false} ThoseInOrder(names: seq<Name>, keep: seq<Name>, m: nat)
    requires m <= |names| && Sorted(names) && FirstsAscend(keep)
    requires forall n :: n in keep ==> n in names
    ensures Those(names, keep, m) <= keep
  {
    if m > 0 {
      ThoseInOrder(names, keep, m - 1);
      if names[m - 1] in keep {
        NextOfThose(names, keep, m - 1);
      }
    }
  }

  /** What follows a prefix of an ascending list is not in it. */
  lemma NotInPrefix(keep: seq<Name>, done: seq<Name>)
    requires FirstsAscend(keep) && done <= keep && |done| < |keep|
    ensures keep[|done|] !in done
  {
    forall x | 0 <= x < |done|
      ensures done[x] != keep[|done|]
    {
      assert keep[x].first < keep[|done|].first;
    }
  }

  lemma NextOfThose(names: seq<Name>, keep: seq<Name>, m: nat)
    requires m < |names| && Sorted(names) && FirstsAscend(keep) && names[m] in keep
    requires forall n :: n in keep ==> n in names
    requires Those(names, keep, m) <= keep
    ensures Those(names, keep, m) + [names[m]] <= keep
  {
    hide Those;
    var done := Those(names, keep, m);
    var c := |done|;
    ThoseHold(names, keep, m, names[m]);
    assert names[m] !in done;
    var k :| 0 <= k < |keep| && keep[k] == names[m];
    assert k >= c;
    NotInPrefix(keep, done);
    ThoseHold(names, keep, m, keep[c]);
    assert keep[c] in names;
    var p :| 0 <= p < |names| && names[p] == keep[c];
    assert p >= m;
    assert keep[k].first <= keep[c].first;
  }

  lemma ThoseAreAll(names: seq<Name>, keep: seq<Name>)
    requires Sorted(names) && FirstsAscend(keep) && forall n :: n in keep ==> n in names
    ensures Those(names, keep, |names|) == keep
  {
    hide Those, FirstsAscend, Sorted;
    ThoseInOrder(names, keep, |names|);
    var done := Those(names, keep, |names|);
    assert names[..|names|] == names;
    if |done| < |keep| {
      ThoseHold(names, keep, |names|, keep[|done|]);
      NotInPrefix(keep, done);
    }
  }

  // ---------------------------------------------------------------------
  // Segments in order

  lemma {:induction false} SegmentsAscend(segs: seq<Segment>, n: nat, i: nat, j: nat)
    requires Contiguous(segs, n) && i < j < |segs|
    ensures segs[i].first <= segs[i].last < segs[j].first
  {
    if i < j - 1 {
      SegmentsAscend(segs, n, i, j - 1);
    }
    var k := j - 1;
    assert segs[k + 1].first == segs[k].last + 1;
  }

  lemma NamesAscend(segs: seq<Segment>, n: nat)
    requires Contiguous(segs, n)
    ensures FirstsAscend(SegNames(segs))
  {
    hide Contiguous;
    forall i, j | 0 <= i < j < |segs|
      ensures SegNames(segs)[i].first < SegNames(segs)[j].first
    {
      SegmentsAscend(segs, n, i, j);
    }
  }

  /** Of two segments, the earlier does not reach the later. */
  lemma NoneSupersedes(segs: seq<Segment>, n: nat, a: Name, b: Name)
    requires Contiguous(segs, n) && a in SegNames(segs) && b in SegNames(segs)
    requires a != b && a.first <= b.first
    ensures !Supersedes(a, b)
  {
    hide Contiguous;
    var i :| 0 <= i < |segs| && SegNames(segs)[i] == a;
    var j :| 0 <= j < |segs| && SegNames(segs)[j] == b;
    if i < j {
      SegmentsAscend(segs, n, i, j);
    } else {
      SegmentsAscend(segs, n, j, i);
    }
  }

  lemma ListingSorted(names: seq<Name>, d: Directory)
    requires IsListing(names, d)
    ensures Sorted(names)
  {
  }

  /** Only one segment's file starts within a segment. */
  lemma OnlyOneWithin(segs: seq<Segment>, n: nat, i: nat, a: Name)
    requires Contiguous(segs, n) && i < |segs| && a in SegNames(segs)
    requires segs[i].first <= a.first <= segs[i].last
    ensures a == SegName(segs[i])
  {
    hide Contiguous;
    var j :| 0 <= j < |segs| && SegNames(segs)[j] == a;
    if i < j {
      SegmentsAscend(segs, n, i, j);
    } else if j < i {
      SegmentsAscend(segs, n, j, i);
    }
  }

  // ---------------------------------------------------------------------
  // Superseded files

  /** `l` starts in the range of the sparse segment `s` and is listed after it. */
  ghost predicate Superseded(names: seq<Name>, s: Segment, l: Name) {
    && Supersedes(SegName(s), l)
    && exists q, p :: 0 <= q < p < |names| && names[q] == SegName(s) && names[p] == l
  }

  /** Every listed file belongs to the layout, or to one superseded by its segment `i`. */
  ghost predicate AllButSuperseded(names: seq<Name>, segs: seq<Segment>, i: nat) {
    forall l :: l in names && l !in SegNames(segs) ==> i < |segs| && Superseded(names, segs[i], l)
  }

  /** At most one superseded file is sparse and starts where its replacement does. */
  ghost predicate OneTie(names: seq<Name>, segs: seq<Segment>, i: nat) {
    forall l, m ::
      l in names && l !in SegNames(segs) && m in names && m !in SegNames(segs) && Ties(segs, i, l) && Ties(segs, i, m)
      ==> l == m
  }

  predicate Ties(segs: seq<Segment>, i: nat, l: Name) {
    i < |segs| && l.Sparse? && l.first == segs[i].first
  }

  lemma KeptSurvives(names: seq<Name>, segs: seq<Segment>, n: nat, p: nat)
    requires Sorted(names) && Contiguous(segs, n) && p < |names| && names[p] in SegNames(segs)
    ensures Survives(names, SegNames(segs), p)
  {
    hide Contiguous, Supersedes;
    var q := LastOf(names, SegNames(segs), p);
    if q >= 0 {
      NoneSupersedes(segs, n, names[q], names[p]);
    }
  }

  lemma SupersededGoes(names: seq<Name>, segs: seq<Segment>, n: nat, i: nat, p: nat)
    requires Sorted(names) && Contiguous(segs, n) && p < |names| && names[p] !in SegNames(segs)
    requires i < |segs| && Superseded(names, segs[i], names[p])
    ensures Survives(names, SegNames(segs), p)
  {
    hide Contiguous;
    var q0, p0 :| 0 <= q0 < p0 < |names| && names[q0] == SegName(segs[i]) && names[p0] == names[p];
    assert p0 == p;
    assert SegNames(segs)[i] == names[q0];
    var q := LastOf(names, SegNames(segs), p);
    assert q >= q0;
    OnlyOneWithin(segs, n, i, names[q]);
  }

  lemma KeepsLayout(names: seq<Name>, segs: seq<Segment>, n: nat, i: nat)
    requires Sorted(names) && Contiguous(segs, n) && AllButSuperseded(names, segs, i)
    requires forall a :: a in SegNames(segs) ==> a in names
    ensures KeepFiles(names) == SegNames(segs)
  {
    hide Contiguous, Survives, Superseded, Sorted, FirstsAscend, LastOf, Those, KeepFiles;
    var keep := SegNames(segs);
    forall p | 0 <= p < |names|
      ensures Survives(names, keep, p)
    {
      if names[p] in keep {
        KeptSurvives(names, segs, n, p);
      } else {
        SupersededGoes(names, segs, n, i, p);
      }
    }
    KeepsSurvivors(names, keep, |names|);
    NamesAscend(segs, n);
    ThoseAreAll(names, keep);
    assert names[..|names|] == names;
  }

  // ---------------------------------------------------------------------
  // What opening finds

  /** Opening these names of the directory gives these files. */
  ghost predicate OpensTo(names: seq<Name>, d: Directory, files: seq<LogFile>) {
    && (forall i :: 0 <= i < |names| ==> IsLogFile(names[i]) && names[i] in d)
    && OpenFiles(names, |names|, d) == Ok(files)
  }

  /**
   Listed as `names`, the directory holds the first `w` records of the log, at
   least the `n` that were acknowledged, except for some that were dropped.
   */
  ghost predicate Found(names: seq<Name>, d: Directory, n: nat, log: seq<WireRecord>, dropped: set<nat>,
                        segs: seq<Segment>, i: nat, w: nat, gone: set<nat>, tail: Bytestring) {
    && n <= w <= |log|
    && gone <= dropped && UpTo(gone, w)
    && Layout(d, segs, log[..w], gone, tail)
    && AllButSuperseded(names, segs, i) && OneTie(names, segs, i)
    && KeepFiles(names) == SegNames(segs)
  }

  ghost predicate UpTo(s: set<nat>, n: nat) {
    forall r :: r in s ==> r <= n
  }

  lemma UpToMore(s: set<nat>, n: nat, m: nat)
    requires UpTo(s, n) && n <= m
    ensures UpTo(s, m)
  {
  }

  ghost predicate FoundBy(names: seq<Name>, d: Directory, n: nat, log: seq<WireRecord>, dropped: set<nat>) {
    exists segs: seq<Segment>, i: nat, w: nat, gone: set<nat>, tail: Bytestring ::
      Found(names, d, n, log, dropped, segs, i, w, gone, tail)
  }

  /** However the directory is listed, opening it finds the `n` acknowledged records. */
  ghost predicate Recovers(d: Directory, n: nat, log: seq<WireRecord>, dropped: set<nat>) {
    forall names :: IsListing(names, d) ==> FoundBy(names, d, n, log, dropped)
  }

  lemma FoundOpens(names: seq<Name>, d: Directory, n: nat, log: seq<WireRecord>, dropped: set<nat>, segs: seq<Segment>,
                   i: nat, w: nat, gone: set<nat>, tail: Bytestring)
    requires Found(names, d, n, log, dropped, segs, i, w, gone, tail)
    ensures OpensTo(KeepFiles(names), d, FilesOf(segs, log[..w], gone))
  {
    hide KeepFiles, OpenFiles, FilesOf, FileOf, Holds, Whole, LogFits;
    OpenSegments(d, segs, log[..w], gone, tail, |segs|);
    assert segs[..|segs|] == segs;
  }

  /** The log only grows and only loses records to compaction, so what was recoverable stays so. */
  lemma RecoversLater(d: Directory, n: nat, log: seq<WireRecord>, dropped: set<nat>, more: seq<WireRecord>, gone: set<nat>)
    requires Recovers(d, n, log, dropped) && dropped <= gone
    ensures Recovers(d, n, log + more, gone)
  {
    hide IsListing, Layout, KeepFiles;
    forall names | IsListing(names, d)
      ensures FoundBy(names, d, n, log + more, gone)
    {
      assert FoundBy(names, d, n, log, dropped);
      var segs: seq<Segment>, i: nat, w: nat, g: set<nat>, tail: Bytestring :|
        Found(names, d, n, log, dropped, segs, i, w, g, tail);
      assert (log + more)[..w] == log[..w];
      assert Found(names, d, n, log + more, gone, segs, i, w, g, tail);
    }
  }

  /** Every log file of the directory is one of these. */
  ghost predicate NoOthers(d: Directory, segs: seq<Segment>) {
    forall a :: a in d && IsLogFile(a) ==> a in SegNames(segs)
  }

  lemma LayoutListed(names: seq<Name>, d: Directory, segs: seq<Segment>, log: seq<WireRecord>, dropped: set<nat>,
                     tail: Bytestring)
    requires IsListing(names, d) && Layout(d, segs, log, dropped, tail)
    ensures forall a :: a in SegNames(segs) ==> a in names
  {
    hide Content, LogFits, Whole;
    forall a | a in SegNames(segs)
      ensures a in names
    {
      var i :| 0 <= i < |segs| && SegNames(segs)[i] == a;
      assert Holds(d, segs[i], log, dropped, if i == |segs| - 1 then tail else []);
    }
  }

  /** A directory with no file but those of a layout, the last perhaps torn. */
  lemma CleanRecovers(d: Directory, segs: seq<Segment>, n: nat, w: nat, log: seq<WireRecord>, dropped: set<nat>,
                      tail: Bytestring)
    requires n <= w <= |log| && Layout(d, segs, log[..w], dropped, tail) && NoOthers(d, segs) && UpTo(dropped, w)
    ensures Recovers(d, n, log, dropped)
  {
    hide KeepFiles, Holds, LogFits, Whole, Contiguous;
    forall names | IsListing(names, d)
      ensures FoundBy(names, d, n, log, dropped)
    {
      ListingSorted(names, d);
      LayoutListed(names, d, segs, log[..w], dropped, tail);
      KeepsLayout(names, segs, w, 0);
      assert Found(names, d, n, log, dropped, segs, 0, w, dropped, tail);
    }
  }

  // ---------------------------------------------------------------------
  // A directory in the middle of a group rewrite

  /** The segments with those from `i` to before `j` replaced by one sparse segment. */
  function Merged(segs: seq<Segment>, i: nat, j: nat): seq<Segment>
    requires i < j <= |segs|
  {
    segs[..i] + [Segment(segs[i].first, segs[j - 1].last, true)] + segs[j..]
  }

  lemma MergedAt(segs: seq<Segment>, i: nat, j: nat, k: nat)
    requires i < j <= |segs| && k < |segs| - (j - i) + 1
    ensures |Merged(segs, i, j)| == |segs| - (j - i) + 1
    ensures k < i ==> Merged(segs, i, j)[k] == segs[k]
    ensures k == i ==> Merged(segs, i, j)[k] == Segment(segs[i].first, segs[j - 1].last, true)
    ensures k > i ==> Merged(segs, i, j)[k] == segs[k + (j - i) - 1]
  {
  }

  lemma MergedContiguous(segs: seq<Segment>, n: nat, i: nat, j: nat)
    requires Contiguous(segs, n) && i < j < |segs|
    ensures Contiguous(Merged(segs, i, j), n)
    ensures segs[i].first <= segs[j - 1].last
  {
    hide Merged;
    var m := Merged(segs, i, j);
    MergedAt(segs, i, j, 0);
    MergedAt(segs, i, j, |m| - 1);
    if i < j - 1 {
      SegmentsAscend(segs, n, i, j - 1);
    }
    forall k | 0 <= k < |m|
      ensures SegmentOk(m[k], n)
    {
      MergedAt(segs, i, j, k);
    }
    forall k | 0 <= k < |m| - 1
      ensures m[k].first <= m[k].last && m[k + 1].first == m[k].last + 1
    {
      MergedAt(segs, i, j, k);
      MergedAt(segs, i, j, k + 1);
      if k < i {
        assert segs[k + 1].first == segs[k].last + 1;
      } else {
        var x := k + (j - i) - 1;
        assert segs[x + 1].first == segs[x].last + 1;
      }
    }
  }

  /** A file of the group starts in the range of its replacement. */
  lemma GroupCovered(segs: seq<Segment>, n: nat, i: nat, j: nat, a: Name)
    requires Contiguous(segs, n) && i < j < |segs| && a in SegNames(segs[i..j])
    ensures Supersedes(SegName(Merged(segs, i, j)[i]), a)
    ensures a.first == segs[i].first ==> a == SegName(segs[i])
  {
    hide Contiguous, Merged;
    MergedAt(segs, i, j, i);
    MergedContiguous(segs, n, i, j);
    var x :| 0 <= x < j - i && SegNames(segs[i..j])[x] == a;
    var k := i + x;
    assert segs[i..j][x] == segs[k];
    if i < k {
      SegmentsAscend(segs, n, i, k);
    }
    if k < j - 1 {
      SegmentsAscend(segs, n, k, j - 1);
    }
    SegmentNonempty(segs, n, k);
    SegmentNonempty(segs, n, j - 1);
  }

  lemma SegmentNonempty(segs: seq<Segment>, n: nat, k: nat)
    requires Contiguous(segs, n) && k < |segs| - 1
    ensures segs[k].first <= segs[k].last
  {
  }

  /** Listed in order of their first revisions, a replacement comes before a file that starts later. */
  lemma ListedBefore(names: seq<Name>, s: Segment, l: Name)
    requires Sorted(names) && SegName(s) in names && l in names && l != SegName(s)
    requires Supersedes(SegName(s), l)
    requires s.first < l.first || Precedes(names, SegName(s), l)
    ensures Superseded(names, s, l)
  {
    if s.first < l.first {
      var q :| 0 <= q < |names| && names[q] == SegName(s);
      var p :| 0 <= p < |names| && names[p] == l;
      assert q < p;
    }
  }

  ghost predicate Precedes(names: seq<Name>, a: Name, b: Name) {
    exists q, p :: 0 <= q < p < |names| && names[q] == a && names[p] == b
  }

  lemma SomeOrder(names: seq<Name>, a: Name, b: Name)
    requires a in names && b in names && a != b
    ensures Precedes(names, a, b) || Precedes(names, b, a)
  {
    var q :| 0 <= q < |names| && names[q] == a;
    var p :| 0 <= p < |names| && names[p] == b;
    if q < p {
      assert Precedes(names, a, b);
    } else {
      assert Precedes(names, b, a);
    }
  }

  /** A sparse file comes before a dense one with the same first revision. */
  lemma SparseFirst(names: seq<Name>, d: Directory, a: Name, b: Name)
    requires IsListing(names, d) && a in names && b in names && a.Sparse? && b.Dense? && a.first == b.first
    ensures Precedes(names, a, b)
  {
    var q :| 0 <= q < |names| && names[q] == a;
    var p :| 0 <= p < |names| && names[p] == b;
    assert q < p;
  }

  /**
   The replacement of segments `i` to before `j` is in place and some of the
   files it replaces remain. They are removed in order, so while a sparse first
   one remains, so do all the others. The active file is past the group: it
   may have grown meanwhile, and end in a torn record.
   */
  ghost predicate MidRewrite(d: Directory, segs: seq<Segment>, i: nat, j: nat, log: seq<WireRecord>, dropped: set<nat>,
                             gone: set<nat>, tail: Bytestring) {
    && i < j < |segs| && Contiguous(segs, |log|) && dropped <= gone && UpTo(gone, |log|)
    && Layout(d, Merged(segs, i, j), log, gone, tail)
    && (forall a :: a in d && IsLogFile(a) ==> a in SegNames(Merged(segs, i, j)) || a in SegNames(segs[i..j]))
    && (HasTie(d, segs, i, j) ==> Layout(d, segs, log, dropped, tail))
  }

  /** The first file of the group is sparse, has another name than its replacement, and is still there. */
  predicate HasTie(d: Directory, segs: seq<Segment>, i: nat, j: nat)
    requires i < j <= |segs|
  {
    segs[i].sparse && SegName(segs[i]) in d && SegName(segs[i]) != SegName(Merged(segs, i, j)[i])
  }

  /** Unless the sparse first file of the group comes first, all of the group is superseded. */
  lemma GroupSuperseded(names: seq<Name>, d: Directory, segs: seq<Segment>, n: nat, i: nat, j: nat, l: Name)
    requires IsListing(names, d) && Contiguous(segs, n) && i < j < |segs|
    requires SegName(Merged(segs, i, j)[i]) in names
    requires HasTie(d, segs, i, j) ==> Precedes(names, SegName(Merged(segs, i, j)[i]), SegName(segs[i]))
    requires l in names && l in SegNames(segs[i..j]) && l != SegName(Merged(segs, i, j)[i])
    ensures Superseded(names, Merged(segs, i, j)[i], l)
  {
    hide Contiguous, Supersedes, Precedes, Superseded;
    ListingSorted(names, d);
    GroupCovered(segs, n, i, j, l);
    SupersedesFirst(Merged(segs, i, j)[i], l);
    var s := Merged(segs, i, j)[i];
    if l.first == s.first && !segs[i].sparse {
      SparseFirst(names, d, SegName(s), l);
    }
    ListedBefore(names, s, l);
  }

  lemma SupersedesFirst(s: Segment, l: Name)
    requires Supersedes(SegName(s), l)
    ensures IsLogFile(l) && s.first <= l.first
  {
  }

  lemma MergedNames(segs: seq<Segment>, i: nat, j: nat, a: Name)
    requires i < j <= |segs| && a in SegNames(Merged(segs, i, j)) && a != SegName(Merged(segs, i, j)[i])
    ensures a in SegNames(segs)
  {
    hide Merged;
    MergedAt(segs, i, j, 0);
    var k :| 0 <= k < |Merged(segs, i, j)| && SegNames(Merged(segs, i, j))[k] == a;
    MergedAt(segs, i, j, k);
    assert SegNames(segs)[if k < i then k else k + (j - i) - 1] == a;
  }

  lemma GroupNames(segs: seq<Segment>, i: nat, j: nat, a: Name)
    requires i <= j <= |segs| && a in SegNames(segs[i..j])
    ensures a in SegNames(segs)
  {
    var x :| 0 <= x < j - i && SegNames(segs[i..j])[x] == a;
    assert SegNames(segs)[i + x] == a;
  }

  /** The first file of the group and its replacement start at the same revision. */
  lemma TieSupersedes(names: seq<Name>, segs: seq<Segment>, n: nat, i: nat, j: nat)
    requires Contiguous(segs, n) && i < j < |segs| && segs[i].sparse
    requires Precedes(names, SegName(segs[i]), SegName(Merged(segs, i, j)[i]))
    ensures Superseded(names, segs[i], SegName(Merged(segs, i, j)[i]))
  {
    hide Contiguous, Merged;
    MergedAt(segs, i, j, i);
    SegmentNonempty(segs, n, i);
  }

  lemma RewriteFound(names: seq<Name>, d: Directory, segs: seq<Segment>, i: nat, j: nat, n: nat, w: nat,
                     log: seq<WireRecord>, dropped: set<nat>, gone: set<nat>, tail: Bytestring)
    requires n <= w <= |log| && MidRewrite(d, segs, i, j, log[..w], dropped, gone, tail) && IsListing(names, d)
    requires HasTie(d, segs, i, j) ==> Precedes(names, SegName(Merged(segs, i, j)[i]), SegName(segs[i]))
    ensures FoundBy(names, d, n, log, gone)
  {
    hide Contiguous, Merged, Precedes, HasTie, Layout, KeepFiles, Superseded;
    var after := Merged(segs, i, j);
    ListingSorted(names, d);
    MergedContiguous(segs, w, i, j);
    MergedAt(segs, i, j, i);
    LayoutListed(names, d, after, log[..w], gone, tail);
    assert SegName(after[i]) == SegNames(after)[i];
    forall l | l in names && l !in SegNames(after)
      ensures Superseded(names, after[i], l)
      ensures Ties(after, i, l) ==> l == SegName(segs[i])
    {
      GroupSuperseded(names, d, segs, w, i, j, l);
      if Ties(after, i, l) {
        GroupCovered(segs, w, i, j, l);
      }
    }
    KeepsLayout(names, after, w, i);
    assert Found(names, d, n, log, gone, after, i, w, gone, tail);
  }

  lemma TieFound(names: seq<Name>, d: Directory, segs: seq<Segment>, i: nat, j: nat, n: nat, w: nat,
                 log: seq<WireRecord>, dropped: set<nat>, gone: set<nat>, tail: Bytestring)
    requires n <= w <= |log| && MidRewrite(d, segs, i, j, log[..w], dropped, gone, tail) && IsListing(names, d)
    requires HasTie(d, segs, i, j) && Precedes(names, SegName(segs[i]), SegName(Merged(segs, i, j)[i]))
    ensures FoundBy(names, d, n, log, gone)
  {
    hide Contiguous, Merged, Precedes, Layout, KeepFiles, Superseded;
    ListingSorted(names, d);
    MergedAt(segs, i, j, i);
    LayoutListed(names, d, segs, log[..w], dropped, tail);
    forall l | l in names && l !in SegNames(segs)
      ensures Superseded(names, segs[i], l) && l == SegName(Merged(segs, i, j)[i])
    {
      if l in SegNames(segs[i..j]) {
        GroupNames(segs, i, j, l);
      } else if l != SegName(Merged(segs, i, j)[i]) {
        MergedNames(segs, i, j, l);
      }
      TieSupersedes(names, segs, w, i, j);
    }
    KeepsLayout(names, segs, w, i);
    assert Found(names, d, n, log, gone, segs, i, w, dropped, tail);
  }

  /** A group rewrite may be cut off anywhere, and an append to the active file with it. */
  lemma RewriteRecovers(d: Directory, segs: seq<Segment>, i: nat, j: nat, n: nat, w: nat, log: seq<WireRecord>,
                        dropped: set<nat>, gone: set<nat>, tail: Bytestring)
    requires n <= w <= |log| && MidRewrite(d, segs, i, j, log[..w], dropped, gone, tail)
    ensures Recovers(d, n, log, gone)
  {
    hide Merged, Layout, Contiguous, IsListing, Precedes, FoundBy;
    MergedAt(segs, i, j, i);
    forall names | IsListing(names, d)
      ensures FoundBy(names, d, n, log, gone)
    {
      if !HasTie(d, segs, i, j) || Precedes(names, SegName(Merged(segs, i, j)[i]), SegName(segs[i])) {
        RewriteFound(names, d, segs, i, j, n, w, log, dropped, gone, tail);
      } else {
        TieListed(names, d, segs, i, j, log[..w], dropped, gone, tail);
        SomeOrder(names, SegName(segs[i]), SegName(Merged(segs, i, j)[i]));
        TieFound(names, d, segs, i, j, n, w, log, dropped, gone, tail);
      }
    }
  }

  lemma TieListed(names: seq<Name>, d: Directory, segs: seq<Segment>, i: nat, j: nat, log: seq<WireRecord>,
                  dropped: set<nat>, gone: set<nat>, tail: Bytestring)
    requires MidRewrite(d, segs, i, j, log, dropped, gone, tail) && IsListing(names, d) && HasTie(d, segs, i, j)
    ensures SegName(segs[i]) in names && SegName(Merged(segs, i, j)[i]) in names
  {
    hide Contiguous, Merged, Layout;
    MergedAt(segs, i, j, i);
    LayoutListed(names, d, Merged(segs, i, j), log, gone, tail);
    assert SegNames(Merged(segs, i, j))[i] == SegName(Merged(segs, i, j)[i]);
  }

  // ---------------------------------------------------------------------
  // A directory in use

  /** What a group rewrite has still to remove: the segments its segment `at` replaced, and what they had lost before. */
  datatype Leftover = Nothing | Group(at: nat, segs: seq<Segment>, had: set<nat>)

  /** The segments before their segment `i` replaced these. */
  function Original(segs: seq<Segment>, i: nat, group: seq<Segment>): seq<Segment>
    requires i < |segs|
  {
    segs[..i] + group + segs[i + 1..]
  }

  /** Segment `i`, which is not the active one, stands for these. */
  predicate StandsFor(segs: seq<Segment>, i: nat, group: seq<Segment>) {
    && i + 1 < |segs| && group != []
    && segs[i] == Segment(group[0].first, group[|group| - 1].last, true)
  }

  /** The directory holds the log; whatever else is in it, a rewrite has replaced and is removing. */
  ghost predicate Tidy(d: Directory, segs: seq<Segment>, log: seq<WireRecord>, dropped: set<nat>, tail: Bytestring,
                       left: Leftover) {
    && Layout(d, segs, log, dropped, tail) && UpTo(dropped, |log|)
    && match left
       case Nothing => NoOthers(d, segs)
       case Group(i, group, had) =>
         && StandsFor(segs, i, group)
         && MidRewrite(d, Original(segs, i, group), i, i + |group|, log, had, dropped, tail)
  }

  lemma OriginalMerges(segs: seq<Segment>, i: nat, group: seq<Segment>)
    requires StandsFor(segs, i, group)
    ensures i + |group| < |Original(segs, i, group)| == |segs| - 1 + |group|
    ensures Merged(Original(segs, i, group), i, i + |group|) == segs
    ensures Original(segs, i, group)[i..i + |group|] == group
    ensures Original(segs, i, group)[|segs| - 2 + |group|] == segs[|segs| - 1]
  {
  }

  /** Whatever happened last, a crash leaves a directory that recovers. */
  lemma TidyRecovers(d: Directory, segs: seq<Segment>, n: nat, w: nat, log: seq<WireRecord>, dropped: set<nat>,
                     tail: Bytestring, left: Leftover)
    requires n <= w <= |log| && Tidy(d, segs, log[..w], dropped, tail, left)
    ensures Recovers(d, n, log, dropped)
  {
    hide Layout, NoOthers, MidRewrite, Recovers, UpTo, Original;
    match left
    case Nothing => CleanRecovers(d, segs, n, w, log, dropped, tail);
    case Group(i, group, had) => RewriteRecovers(d, Original(segs, i, group), i, i + |group|, n, w, log, had, dropped, tail);
  }

  // ---------------------------------------------------------------------
  // A crash while opening

  /** The superseded files among the names, which listing removes one by one. */
  function Removed(names: seq<Name>): set<Name> {
    if names == [] then {}
    else
      var m := |names| - 1;
      var kept := KeepFiles(names[..m]);
      Removed(names[..m]) + if kept != [] && Supersedes(kept[|kept| - 1], names[m]) then {names[m]} else {}
  }

  lemma {:induction false} RemovedAre(names: seq<Name>, keep: seq<Name>, m: nat, a: Name)
    requires m <= |names| && Survivors(names, keep)
    ensures a in Removed(names[..m]) <==> a in names[..m] && a !in keep
  {
    hide Supersedes, KeepFiles, LastOf;
    if m > 0 {
      RemovedAre(names, keep, m - 1, a);
      RemovedStep(names, keep, m);
      assert names[..m] == names[..m - 1] + [names[m - 1]];
    }
  }

  lemma RemovedStep(names: seq<Name>, keep: seq<Name>, m: nat)
    requires 0 < m <= |names| && Survivors(names, keep)
    ensures Removed(names[..m]) == Removed(names[..m - 1]) + if names[m - 1] in keep then {} else {names[m - 1]}
  {
    hide Supersedes;
    KeepsSurvivors(names, keep, m - 1);
    assert Survives(names, keep, m - 1);
    assert names[..m][..m - 1] == names[..m - 1];
  }

  lemma SurvivorsAre(names: seq<Name>, segs: seq<Segment>, n: nat, i: nat)
    requires Sorted(names) && Contiguous(segs, n) && AllButSuperseded(names, segs, i)
    ensures Survivors(names, SegNames(segs))
  {
    hide Contiguous, Survives, Superseded, Sorted, LastOf;
    forall p | 0 <= p < |names|
      ensures Survives(names, SegNames(segs), p)
    {
      if names[p] in SegNames(segs) {
        KeptSurvives(names, segs, n, p);
      } else {
        SupersededGoes(names, segs, n, i, p);
      }
    }
  }

  /** Once a superseded file has been removed, none is left that might be listed before its replacement. */
  lemma NoTieLeft(names: seq<Name>, d: Directory, segs: seq<Segment>, i: nat, p: nat, q: nat)
    requires IsListing(names, d) && AllButSuperseded(names, segs, i) && OneTie(names, segs, i)
    requires p < q < |names| && names[p] !in SegNames(segs) && names[q] !in SegNames(segs)
    ensures i < |segs| && segs[i].first <= names[q].first && (names[q].first == segs[i].first ==> names[q].Dense?)
  {
    hide SegNames;
    assert Superseded(names, segs[i], names[p]) && Superseded(names, segs[i], names[q]);
    assert Before(names[p], names[q]) && names[p] != names[q];
    assert Ties(segs, i, names[q]) ==> Ties(segs, i, names[p]);
  }

  /** Another listing, of what is left, keeps the same files. */
  lemma LeftSuperseded(names: seq<Name>, d: Directory, segs: seq<Segment>, i: nat, p: nat, q: nat, again: seq<Name>,
                       e: Directory)
    requires IsListing(names, d) && AllButSuperseded(names, segs, i) && OneTie(names, segs, i)
    requires p < q < |names| && names[p] !in SegNames(segs) && names[q] !in SegNames(segs)
    requires IsListing(again, e) && names[q] in again && i < |segs| && SegName(segs[i]) in again
    ensures Superseded(again, segs[i], names[q])
  {
    hide AllButSuperseded, OneTie, SegNames;
    NoTieLeft(names, d, segs, i, p, q);
    WasSuperseded(names, segs, i, names[q]);
    ListingSorted(again, e);
    if names[q].first == segs[i].first {
      SparseFirst(again, e, SegName(segs[i]), names[q]);
    }
    ListedBefore(again, segs[i], names[q]);
  }

  lemma WasSuperseded(names: seq<Name>, segs: seq<Segment>, i: nat, l: Name)
    requires AllButSuperseded(names, segs, i) && l in names && l !in SegNames(segs)
    ensures i < |segs| && Supersedes(SegName(segs[i]), l) && SegName(segs[i]).Sparse?
    ensures l != SegName(segs[i])
  {
    hide SegNames;
    assert Superseded(names, segs[i], l);
    assert SegNames(segs)[i] == SegName(segs[i]);
  }

  /** What is left after listing removed some files opens to the same log. */
  lemma RemovalFound(names: seq<Name>, d: Directory, n: nat, log: seq<WireRecord>, dropped: set<nat>,
                     segs: seq<Segment>, i: nat, w: nat, gone: set<nat>, tail: Bytestring, m: nat, again: seq<Name>)
    requires Found(names, d, n, log, dropped, segs, i, w, gone, tail) && IsListing(names, d)
    requires m <= |names| && Removed(names[..m]) != {} && IsListing(again, d - Removed(names[..m]))
    ensures FoundBy(again, d - Removed(names[..m]), n, log, dropped)
  {
    hide Contiguous, KeepFiles, Superseded, IsListing, Supersedes, Removed, Survivors, OneTie, AllButSuperseded, Layout;
    var e := d - Removed(names[..m]);
    var keep := SegNames(segs);
    ListingSorted(names, d);
    ListingSorted(again, e);
    LayoutContiguous(d, segs, log[..w], gone, tail);
    SurvivorsAre(names, segs, w, i);
    forall a | a in keep && a in d
      ensures a in e && e[a] == d[a]
    {
      RemovedAre(names, keep, m, a);
    }
    LayoutSame(d, e, segs, log[..w], gone, tail);
    LayoutListed(again, e, segs, log[..w], gone, tail);
    LeftTidy(names, d, segs, i, w, m, again);
    KeepsLayout(again, segs, w, i);
    assert Found(again, e, n, log, dropped, segs, i, w, gone, tail);
  }

  lemma ListedIn(names: seq<Name>, d: Directory, l: Name)
    requires IsListing(names, d) && l in names
    ensures l in d && IsLogFile(l)
  {
  }

  lemma Lists(names: seq<Name>, d: Directory, l: Name)
    requires IsListing(names, d) && l in d && IsLogFile(l)
    ensures l in names
  {
  }

  /** What another listing finds besides the layout was listed before, after something that was removed. */
  lemma LeftOne(names: seq<Name>, d: Directory, keep: seq<Name>, m: nat, again: seq<Name>, l: Name) returns (p: nat, q: nat)
    requires IsListing(names, d) && Survivors(names, keep)
    requires m <= |names| && Removed(names[..m]) != {} && IsListing(again, d - Removed(names[..m]))
    requires l in again && l !in keep
    ensures p < q < |names| && names[p] !in keep && names[q] == l
  {
    hide Survivors, Removed, IsListing;
    var r :| r in Removed(names[..m]);
    RemovedAre(names, keep, m, r);
    var x :| 0 <= x < m && names[..m][x] == r;
    ListedIn(again, d - Removed(names[..m]), l);
    Lists(names, d, l);
    RemovedAre(names, keep, m, l);
    assert names == names[..m] + names[m..];
    var y :| 0 <= y < |names[m..]| && names[m..][y] == l;
    p, q := x, m + y;
  }

  lemma LeftTidy(names: seq<Name>, d: Directory, segs: seq<Segment>, i: nat, n: nat, m: nat, again: seq<Name>)
    requires IsListing(names, d) && AllButSuperseded(names, segs, i) && OneTie(names, segs, i) && Survivors(names, SegNames(segs))
    requires m <= |names| && Removed(names[..m]) != {} && IsListing(again, d - Removed(names[..m]))
    requires forall a :: a in SegNames(segs) ==> a in again
    ensures AllButSuperseded(again, segs, i) && OneTie(again, segs, i)
  {
    hide SegNames, Superseded, Survivors, Supersedes, Removed, IsListing;
    var keep := SegNames(segs);
    forall l | l in again && l !in keep
      ensures l in names && i < |segs| && Superseded(again, segs[i], l)
    {
      var p, q := LeftOne(names, d, keep, m, again, l);
      WasSuperseded(names, segs, i, l);
      assert SegNames(segs)[i] == SegName(segs[i]);
      LeftSuperseded(names, d, segs, i, p, q, again, d - Removed(names[..m]));
    }
  }

  /** A layout depends on its own files alone. */
  lemma LayoutSame(d: Directory, e: Directory, segs: seq<Segment>, log: seq<WireRecord>, dropped: set<nat>,
                   tail: Bytestring)
    requires Layout(d, segs, log, dropped, tail)
    requires forall a :: a in SegNames(segs) && a in d ==> a in e && e[a] == d[a]
    ensures Layout(e, segs, log, dropped, tail)
  {
    hide Content, LogFits, Whole;
    forall i | 0 <= i < |segs|
      ensures Holds(e, segs[i], log, dropped, if i == |segs| - 1 then tail else [])
    {
      assert Holds(d, segs[i], log, dropped, if i == |segs| - 1 then tail else []);
      assert SegNames(segs)[i] == SegName(segs[i]);
    }
  }

  /** Opening may itself be cut off after any removal. */
  lemma RemovalRecovers(names: seq<Name>, d: Directory, n: nat, log: seq<WireRecord>, dropped: set<nat>, m: nat)
    requires Recovers(d, n, log, dropped) && IsListing(names, d)
    requires m <= |names| && Removed(names[..m]) != {}
    ensures Recovers(d - Removed(names[..m]), n, log, dropped)
  {
    hide IsListing, Found, Removed;
    assert FoundBy(names, d, n, log, dropped);
    var segs: seq<Segment>, i: nat, w: nat, gone: set<nat>, tail: Bytestring :|
      Found(names, d, n, log, dropped, segs, i, w, gone, tail);
    forall again | IsListing(again, d - Removed(names[..m]))
      ensures FoundBy(again, d - Removed(names[..m]), n, log, dropped)
    {
      RemovalFound(names, d, n, log, dropped, segs, i, w, gone, tail, m, again);
    }
  }

  // ---------------------------------------------------------------------
  // Files that are not the log's

  /** Only files that are not the log's differ. */
  ghost predicate SameLogFiles(d: Directory, e: Directory) {
    forall a :: IsLogFile(a) ==> (a in d <==> a in e) && (a in d ==> d[a] == e[a])
  }

  /** What is in a temporary file, and whether it is there, does not matter to recovery. */
  lemma OthersDoNotMatter(d: Directory, e: Directory, n: nat, log: seq<WireRecord>, dropped: set<nat>)
    requires Recovers(d, n, log, dropped) && SameLogFiles(d, e)
    ensures Recovers(e, n, log, dropped)
  {
    hide Layout, KeepFiles, AllButSuperseded, OneTie;
    forall names | IsListing(names, e)
      ensures FoundBy(names, e, n, log, dropped)
    {
      assert IsListing(names, d);
      var segs: seq<Segment>, i: nat, w: nat, gone: set<nat>, tail: Bytestring :|
        Found(names, d, n, log, dropped, segs, i, w, gone, tail);
      LayoutSame(d, e, segs, log[..w], gone, tail);
      assert Found(names, e, n, log, dropped, segs, i, w, gone, tail);
    }
  }
}
