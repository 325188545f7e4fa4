/**
 Range reads inside transactions that write: such a transaction is validated
 against the start of its batch, so what its client was told about a range may
 already be out of date at the transaction's own revision. This file says
 exactly when.
 */
module RangeReads {
  import opened Bytes
  import opened Records
  import opened KeyIndex
  import opened Listing
  import opened GroupCommit
  import opened Mvcc
  import opened System
  import opened Paging

  // ---------------------------------------------------------------------
  // Two stores give the same answer

  /** A key a range read may return. */
  predicate InRange(r: RangeRequest, k: Key) {
    AtMost(r.key, k) && BeforeEnd(k, r.rangeEnd) && !IsInternalKey(k)
  }

  ghost predicate Filed(st: Store) {
    forall k :: k in st ==> st[k].key == k
  }

  lemma InAnswer(st: Store, r: RangeRequest, k: Key)
    requires InRange(r, k) && k in st
    ensures st[k] in Answer(st, r.key, r.rangeEnd)
  {
    hide AtMost, BeforeEnd, IsInternalKey;
    var keys := KeysFrom(st, r.key, r.rangeEnd);
    assert k in keys;
    var i :| 0 <= i < |keys| && keys[i] == k;
    assert Answer(st, r.key, r.rangeEnd)[i] == st[k];
  }

  lemma AnswerHolds(st: Store, r: RangeRequest, kv: KeyValue)
    requires Filed(st) && kv in Answer(st, r.key, r.rangeEnd)
    ensures kv.key in st && st[kv.key] == kv
  {
    hide AtMost, BeforeEnd, IsInternalKey;
    var keys := KeysFrom(st, r.key, r.rangeEnd);
    var i :| 0 <= i < |keys| && Answer(st, r.key, r.rangeEnd)[i] == kv;
    assert keys[i] in keys;
  }

  lemma SameAnswer(a: Store, b: Store, r: RangeRequest)
    requires forall k: Key :: InRange(r, k) ==> Lookup(a, k) == Lookup(b, k)
    ensures Answer(a, r.key, r.rangeEnd) == Answer(b, r.key, r.rangeEnd)
  {
    hide AtMost, BeforeEnd, IsInternalKey;
    var x, y := KeysFrom(a, r.key, r.rangeEnd), KeysFrom(b, r.key, r.rangeEnd);
    forall k: Key
      ensures k in x <==> k in y
    {
      assert InRange(r, k) ==> Lookup(a, k) == Lookup(b, k);
    }
    SortedExt(x, y);
    forall i | 0 <= i < |x|
      ensures Values(a, x)[i] == Values(b, y)[i]
    {
      assert x[i] in x && InRange(r, x[i]);
      assert Lookup(a, x[i]) == Lookup(b, x[i]);
    }
  }

  /** Two stores answer a range read alike if and only if they hold the same values in the range. */
  lemma AnswerIsExact(a: Store, b: Store, r: RangeRequest)
    requires Filed(a) && Filed(b)
    ensures Answer(a, r.key, r.rangeEnd) == Answer(b, r.key, r.rangeEnd)
            <==> forall k: Key :: InRange(r, k) ==> Lookup(a, k) == Lookup(b, k)
  {
    hide InRange, Answer;
    if Answer(a, r.key, r.rangeEnd) == Answer(b, r.key, r.rangeEnd) {
      forall k: Key | InRange(r, k)
        ensures Lookup(a, k) == Lookup(b, k)
      {
        if k in a {
          InAnswer(a, r, k);
          AnswerHolds(b, r, a[k]);
        }
        if k in b {
          InAnswer(b, r, k);
          AnswerHolds(a, r, b[k]);
        }
      }
    } else if forall k: Key :: InRange(r, k) ==> Lookup(a, k) == Lookup(b, k) {
      SameAnswer(a, b, r);
    }
  }

  // ---------------------------------------------------------------------
  // What a batch does to one key

  /** The log as it is just before member `i` of the batch being flushed. */
  ghost function LogBefore(s: Sys, i: nat): seq<LogRecord>
    requires i <= |NextBatch(s.committer)|
  {
    LogOf(s.initial, FlushedSome(s.committer, i).committed)
  }

  /** Two members of a batch do not write the same key. */
  lemma MembersApart(c: Committer, j: nat, i: nat, key: Key)
    requires GroupCommit.Inv(c) && j < i < |NextBatch(c)| && Wrote(NextBatch(c)[j], key)
    ensures !Wrote(NextBatch(c)[i], key)
  {
    hide GroupCommit.Inv, NextBatch, FlushNext, Waiting;
    NextBatchWaits(c);
    assert CanBatchTogether(NextBatch(c)[j].meta, NextBatch(c)[i].meta);
  }

  lemma NewIsOnce(c: Committer, i: nat, key: Key)
    requires GroupCommit.Inv(c) && i < |NextBatch(c)| && WrittenAhead(c, i, key)
    ensures !Wrote(NextBatch(c)[i], key)
  {
    hide GroupCommit.Inv, NextBatch, Accepted, Wrote;
    var j :| 0 <= j < i && Accepted(c, j) && Wrote(NextBatch(c)[j], key);
    MembersApart(c, j, i, key);
  }

  /** No key is committed twice by one batch. */
  lemma {:induction false} OnceAhead(c: Committer, i: nat, key: Key, x: nat, y: nat)
    requires GroupCommit.Inv(c) && i <= |NextBatch(c)|
    requires |c.progress.committed| <= x < y < |FlushedSome(c, i).committed|
    requires Wrote(FlushedSome(c, i).committed[x], key)
    ensures !Wrote(FlushedSome(c, i).committed[y], key)
  {
    hide Accepted, Stamp, GroupCommit.Inv, NextBatch, FlushNext, FlushedSome, WrittenAhead;
    FlushedNone(c);
    if i > 0 {
      MemberIs(c, i - 1);
      var q0, q := FlushedSome(c, i - 1).committed, FlushedSome(c, i).committed;
      if y < |q0| {
        OnceAhead(c, i - 1, key, x, y);
      } else {
        assert q[x] == q0[x];
        AheadIsWritten(c, i - 1, key);
        NewIsOnce(c, i - 1, key);
      }
    }
  }

  /** The state a flush leaves the system in. */
  ghost function AfterFlush(s: Sys): Sys {
    var c := FlushNext(s.committer);
    s.(committer := c, view := s.view.(log := LogOf(s.initial, c.progress.committed)))
  }

  lemma AfterFlushInv(s: Sys)
    requires System.Inv(s)
    ensures System.Inv(AfterFlush(s)) && FlushStep(s, AfterFlush(s))
  {
    hide System.Inv;
    FlushKeeps(s, AfterFlush(s));
  }

  lemma LogsGrow(s: Sys, i: nat)
    requires System.Inv(s) && i < |NextBatch(s.committer)|
    ensures s.view.log <= LogBefore(s, i) <= AfterFlush(s).view.log
  {
    var c := s.committer;
    MemberIs(c, i);
    assert s.view.log == LogOf(s.initial, c.progress.committed);
    hide System.Inv, FlushNext, FlushedSome, Accepted;
    LogOfGrows(s.initial, c.progress.committed, FlushedSome(c, i).committed);
    LogOfGrows(s.initial, FlushedSome(c, i).committed, FlushNext(c).progress.committed);
  }

  lemma FlushedRecord(s: Sys, x: nat)
    requires System.Inv(s) && x < |s.committer.progress.committed|
    ensures |s.initial| + x < |s.view.log|
    ensures WritesTouched(s.committer.progress.committed[x])
    ensures s.view.log[|s.initial| + x] == s.committer.progress.committed[x].record
    ensures EventsOk(s.view.log[|s.initial| + x], StateAt(s.view.log, |s.initial| + x), |s.initial| + x + 1)
  {
    hide StateAt, EventsOk, ViewOk, ArrivalsOk, GroupCommit.Inv, SubmissionOk, WritesTouched, SerialAt, LogOk, WatcherOk;
    EventsContinue(s, x);
  }

  lemma StartIs(s: Sys)
    requires System.Inv(s)
    ensures |s.view.log| == |s.initial| + |s.committer.progress.committed| && GroupCommit.Inv(s.committer)
    ensures s.committer.base == |s.initial| && s.committer.last == |s.view.log|
    ensures LogOk(s.view.log)
  {
  }

  /** A revision past the start of the batch is that of a committed member. */
  lemma AheadRecord(s: Sys, i: nat, q: Revision, key: Key)
    requires System.Inv(s) && i < |NextBatch(s.committer)| && |s.view.log| < q <= |LogBefore(s, i)|
    ensures |s.view.log| == |s.initial| + |s.committer.progress.committed|
    ensures WrittenAt(LogBefore(s, i), q, key) <==> Wrote(FlushedSome(s.committer, i).committed[q - |s.initial| - 1], key)
    ensures EventsOk(LogBefore(s, i)[q - 1], StateAt(LogBefore(s, i), q - 1), q)
  {
    hide System.Inv, GroupCommit.Inv, FlushNext, EventsOk, StateAt, FlushedSome, Accepted, WrittenAt;
    var c, s' := s.committer, AfterFlush(s);
    AfterFlushInv(s);
    LogsGrow(s, i);
    StartIs(s);
    MemberIs(c, i);
    var x := q - |s.initial| - 1;
    var mid, all := FlushedSome(c, i).committed, s'.committer.progress.committed;
    var before, log := LogBefore(s, i), s'.view.log;
    FlushedRecord(s', x);
    assert mid[x] == all[x];
    assert before[q - 1] == log[q - 1] == mid[x].record;
    PrefixStable(before, log[|before|..], q - 1, key);
    assert before + log[|before|..] == log;
    TouchedIs(before, mid[x], q, key);
  }

  lemma TouchedIs(log: seq<LogRecord>, t: PendingTxn, q: Revision, key: Key)
    requires 0 < q <= |log| && log[q - 1] == t.record && WritesTouched(t)
    ensures WrittenAt(log, q, key) <==> Wrote(t, key)
  {
    assert Wrote(t, key) <==> Touches(t.record, key);
  }

  lemma LogBeforeOk(s: Sys, i: nat)
    requires System.Inv(s) && i < |NextBatch(s.committer)|
    ensures LogOk(LogBefore(s, i)) && s.view.log <= LogBefore(s, i)
  {
    hide System.Inv, FlushNext, FlushedSome, RecordOk;
    AfterFlushInv(s);
    LogsGrow(s, i);
    StartIs(AfterFlush(s));
    var before, log := LogBefore(s, i), AfterFlush(s).view.log;
    forall x | 0 <= x < |before|
      ensures RecordOk(before[x], x + 1)
    {
      assert before[x] == log[x];
    }
  }

  /** The key is not written between two revisions: it keeps its value. */
  lemma {:induction false} QuietBetween(log: seq<LogRecord>, a: nat, b: nat, key: Key)
    requires a <= b <= |log| && LogOk(log) && forall q :: a < q <= b ==> !WrittenAt(log, q, key)
    ensures Lookup(StateAt(log, b), key) == Lookup(StateAt(log, a), key)
    decreases b - a
  {
    if a < b {
      QuietBetween(log, a, b - 1, key);
      assert !WrittenAt(log, b, key) && RecordOk(log[b - 1], (b - 1) + 1);
      ApplyRecordLookup(StateAt(log, b - 1), log[b - 1], key);
    }
  }

  /** A live value was last written at or before the revision it is read at. */
  lemma ModWithin(log: seq<LogRecord>, n: nat, key: Key)
    requires n <= |log| && LogOk(log) && key in StateAt(log, n)
    ensures StateAt(log, n)[key].modRevision <= n
  {
    LogOkWritesOnce(log, n);
    StateIsLastWrite(log, n, key);
    var r := LastWrite(log, n, key);
    var e := FindEvent(log[r - 1], key).value;
    assert RecordOk(log[r - 1], (r - 1) + 1);
    var x :| 0 <= x < |log[r - 1]| && log[r - 1][x] == e;
  }

  /** A write by a record that continues from the store before it, with none between: the key's value changes. */
  lemma WriteChanges(log: seq<LogRecord>, a: nat, q: nat, b: nat, key: Key)
    requires a < q <= b <= |log| && LogOk(log) && WrittenAt(log, q, key)
    requires forall x :: a < x <= b && x != q ==> !WrittenAt(log, x, key)
    requires EventsOk(log[q - 1], StateAt(log, q - 1), q)
    ensures Lookup(StateAt(log, b), key) != Lookup(StateAt(log, a), key)
  {
    hide LogOk;
    QuietBetween(log, a, q - 1, key);
    QuietBetween(log, q, b, key);
    LogOkWritesOnce(log, q);
    ApplyRecordLookup(StateAt(log, q - 1), log[q - 1], key);
    var e := FindEvent(log[q - 1], key).value;
    var x :| 0 <= x < |log[q - 1]| && log[q - 1][x] == e;
    assert EventOk(e, StateAt(log, q - 1), q);
    if key in StateAt(log, a) {
      ModWithin(log, a, key);
    }
  }

  /** The one place where the batch writes the key. */
  lemma OnlyWrite(s: Sys, i: nat, key: Key, x: nat, y: Revision)
    requires System.Inv(s) && i < |NextBatch(s.committer)|
    requires |s.committer.progress.committed| <= x < |FlushedSome(s.committer, i).committed|
        && Wrote(FlushedSome(s.committer, i).committed[x], key)
    requires |s.view.log| < y <= |LogBefore(s, i)| && y != |s.initial| + x + 1
    ensures !WrittenAt(LogBefore(s, i), y, key)
  {
    hide System.Inv, GroupCommit.Inv, FlushedSome, WrittenAt, Wrote, NextBatch;
    StartIs(s);
    AheadRecord(s, i, y, key);
    var z := y - |s.initial| - 1;
    if z < x {
      if Wrote(FlushedSome(s.committer, i).committed[z], key) {
        OnceAhead(s.committer, i, key, z, x);
      }
    } else {
      OnceAhead(s.committer, i, key, x, z);
    }
  }

  lemma KeyWritten(s: Sys, i: nat, key: Key)
    requires System.Inv(s) && i < |NextBatch(s.committer)| && WrittenAhead(s.committer, i, key)
    ensures |s.view.log| <= |LogBefore(s, i)|
    ensures Lookup(StateAt(LogBefore(s, i), |LogBefore(s, i)|), key) != Lookup(StateAt(LogBefore(s, i), |s.view.log|), key)
  {
    hide System.Inv, GroupCommit.Inv, StateAt, LogOk, EventsOk, FlushedSome, WrittenAhead, WrittenAt, Wrote, NextBatch, FindEvent;
    StartIs(s);
    LogBeforeOk(s, i);
    AheadIsWritten(s.committer, i, key);
    var mid, before := FlushedSome(s.committer, i).committed, LogBefore(s, i);
    var x :| |s.committer.progress.committed| <= x < |mid| && Wrote(mid[x], key);
    var q := |s.initial| + x + 1;
    AheadRecord(s, i, q, key);
    forall y | |s.view.log| < y <= |before| && y != q
      ensures !WrittenAt(before, y, key)
    {
      OnlyWrite(s, i, key, x, y);
    }
    WriteChanges(before, |s.view.log|, q, |before|, key);
  }

  lemma KeyQuiet(s: Sys, i: nat, key: Key)
    requires System.Inv(s) && i < |NextBatch(s.committer)| && !WrittenAhead(s.committer, i, key)
    ensures |s.view.log| <= |LogBefore(s, i)|
    ensures Lookup(StateAt(LogBefore(s, i), |LogBefore(s, i)|), key) == Lookup(StateAt(LogBefore(s, i), |s.view.log|), key)
  {
    hide System.Inv, GroupCommit.Inv, StateAt, LogOk, EventsOk, FlushedSome, WrittenAhead, WrittenAt, Wrote, NextBatch, FindEvent;
    StartIs(s);
    LogBeforeOk(s, i);
    AheadIsWritten(s.committer, i, key);
    var mid, before := FlushedSome(s.committer, i).committed, LogBefore(s, i);
    forall y | |s.view.log| < y <= |before|
      ensures !WrittenAt(before, y, key)
    {
      AheadRecord(s, i, y, key);
      var z := y - |s.initial| - 1;
      assert !Wrote(mid[z], key);
    }
    QuietBetween(before, |s.view.log|, |before|, key);
  }

  /** Between the start of a batch and one of its members, a key changes if and only if a member accepted ahead writes it. */
  lemma KeyChanges(s: Sys, i: nat, key: Key)
    requires System.Inv(s) && i < |NextBatch(s.committer)|
    ensures s.view.log <= LogBefore(s, i)
    ensures Lookup(StateAt(LogBefore(s, i), |LogBefore(s, i)|), key) != Lookup(StateAt(s.view.log, |s.view.log|), key)
            <==> WrittenAhead(s.committer, i, key)
  {
    hide *;
    LogBeforeOk(s, i);
    var log, before := s.view.log, LogBefore(s, i);
    PrefixStable(log, before[|log|..], |log|, key);
    assert log + before[|log|..] == before;
    if WrittenAhead(s.committer, i, key) {
      KeyWritten(s, i, key);
    } else {
      KeyQuiet(s, i, key);
    }
  }

  // ---------------------------------------------------------------------
  // What the client was told

  lemma AcceptedIs(c: Committer, i: nat)
    requires Accepted(c, i)
    ensures i < |NextBatch(c)|
  {
  }

  /** The transaction member `i` of the batch was evaluated as. */
  ghost function SubmittedAs(s: Sys, i: nat): Submission
    requires i < |NextBatch(s.committer)| && NextBatch(s.committer)[i].ticket < |s.submitted|
  {
    s.submitted[NextBatch(s.committer)[i].ticket]
  }

  lemma MemberSubmitted(s: Sys, i: nat)
    requires System.Inv(s) && i < |NextBatch(s.committer)|
    ensures NextBatch(s.committer)[i].ticket < |s.submitted|
    ensures ArrivalOk(NextBatch(s.committer)[i], SubmittedAs(s, i), |s.initial|, s.view.log)
  {
    hide ArrivalOk, ViewOk, CommitsOk;
    var c := s.committer;
    NextBatchWaits(c);
    MemberTicket(c, i);
    var done := |c.progress.results|;
    assert NextBatch(c)[i] == c.arrivals[done..][i] == c.arrivals[done + i];
    assert ArrivalOk(c.arrivals[done + i], s.submitted[done + i], |s.initial|, s.view.log);
  }

  /** An accepted range reader was evaluated on the whole log as it is when its batch is flushed. */
  lemma ReaderSawAll(s: Sys, i: nat)
    requires System.Inv(s) && Accepted(s.committer, i) && NextBatch(s.committer)[i].meta.hasRangeRead
    ensures NextBatch(s.committer)[i].ticket < |s.submitted|
    ensures var sub := SubmittedAs(s, i);
            && ViewOk(sub.view) && sub.view.log == s.view.log && sub.snapshot == sub.view.applied == |s.view.log|
            && Evaluate(sub.view, sub.req, sub.snapshot).Ok?
  {
    hide Accepted, AcceptedRevision, Evaluate, LogOk, IndexOk, Joined, GroupCommit.Inv, NextBatch;
    StartIs(s);
    AcceptedIs(s.committer, i);
    MemberSubmitted(s, i);
    CurrentIsExact(s.committer, i, iset{});
    hide System.Inv;
    var sub := SubmittedAs(s, i);
    ViewCreated(sub.view, sub.snapshot);
    EvaluateIsStaged(sub.view, sub.req, sub.snapshot);
  }

  /** The log just before the member's own revision. */
  lemma BeforeOwn(s: Sys, i: nat)
    requires System.Inv(s) && Accepted(s.committer, i)
    ensures AcceptedRevision(s.committer, i) == |LogBefore(s, i)| + 1 && |LogBefore(s, i)| < |AfterFlush(s).view.log|
    ensures StateAt(AfterFlush(s).view.log, |LogBefore(s, i)|) == StateAt(LogBefore(s, i), |LogBefore(s, i)|)
  {
    StartIs(s);
    MemberIs(s.committer, i);
    LogsGrow(s, i);
    hide System.Inv, GroupCommit.Inv, FlushNext, FlushedSome, StateAt;
    var before, log := LogBefore(s, i), AfterFlush(s).view.log;
    PrefixStable(before, log[|before|..], |before|, []);
    assert before + log[|before|..] == log;
  }

  /**
   What a range read inside a transaction told the client: a page of the store
   as the transaction's batch found it, if no record reached puts another key.
   That is a page of the store just before the transaction's own revision if no
   transaction accepted ahead of it in the batch writes a key of the range; and
   the two stores differ in the range exactly when one does.
   */
  lemma RangeResponseIsExact(s: Sys, i: nat, y: nat)
    requires System.Inv(s) && Accepted(s.committer, i) && NextBatch(s.committer)[i].ticket < |s.submitted|
    requires var sub := SubmittedAs(s, i);
             && Evaluate(sub.view, sub.req, sub.snapshot).Ok?
             && y < |Taken(sub.req, TxnOf(sub))| && Taken(sub.req, TxnOf(sub))[y].OpRange?
             && Taken(sub.req, TxnOf(sub))[y].range.revision == 0
    requires NoExtras(s.view.log, |s.view.log|)
    ensures AcceptedRevision(s.committer, i) > 0 && AcceptedRevision(s.committer, i) - 1 <= |AfterFlush(s).view.log|
    ensures var sub := SubmittedAs(s, i);
            var r := Taken(sub.req, TxnOf(sub))[y].range;
            var found, own := StateAt(s.view.log, |s.view.log|), StateAt(AfterFlush(s).view.log,
                AcceptedRevision(s.committer, i) - 1);
            && y < |TxnOf(sub).responses| && TxnOf(sub).responses[y] == ListResponse(Page(found, r))
            && (Answer(found, r.key, r.rangeEnd) == Answer(own, r.key, r.rangeEnd)
                <==> forall k: Key :: InRange(r, k) ==> !WrittenAhead(s.committer, i, k))
            && ((forall k: Key :: InRange(r, k) ==> !WrittenAhead(s.committer, i, k)) ==>
                  TxnOf(sub).responses[y] == ListResponse(Page(own, r)))
  {
    hide System.Inv, Accepted, AcceptedRevision, Evaluate, StateAt, Answer, InRange, WrittenAhead, ViewOk, NoExtras,
        NextBatch, LogBefore, Listing.List;
    AcceptedIs(s.committer, i);
    var sub := SubmittedAs(s, i);
    var r := Taken(sub.req, TxnOf(sub))[y].range;
    EvaluateRange(sub.view, sub.req, sub.snapshot, y);
    MemberSubmitted(s, i);
    ReaderSawAll(s, i);
    BeforeOwn(s, i);
    ViewReaches(sub.view);
    StoreServes(sub.view, s.view.log, sub.snapshot, r);
    var found, own := StateAt(s.view.log, |s.view.log|), StateAt(AfterFlush(s).view.log, AcceptedRevision(s.committer, i) - 1);
    StateKeys(s.view.log, |s.view.log|);
    StateKeys(AfterFlush(s).view.log, AcceptedRevision(s.committer, i) - 1);
    AnswerIsExact(found, own, r);
    forall k: Key
      ensures Lookup(found, k) == Lookup(own, k) <==> !WrittenAhead(s.committer, i, k)
    {
      KeyChanges(s, i, k);
    }
  }

  /** A range read at an explicit revision is a page of the history at that revision, whenever its transaction commits. */
  lemma HistoryResponse(s: Sys, i: nat, y: nat)
    requires System.Inv(s) && i < |s.committer.progress.committed|
    requires var sub := Origin(s, i);
             && y < |Taken(sub.req, TxnOf(sub))| && Taken(sub.req, TxnOf(sub))[y].OpRange?
             && Taken(sub.req, TxnOf(sub))[y].range.revision > 0
             && NoExtras(s.view.log, Taken(sub.req, TxnOf(sub))[y].range.revision)
    ensures var sub := Origin(s, i);
            var r := Taken(sub.req, TxnOf(sub))[y].range;
            y < |TxnOf(sub).responses| && TxnOf(sub).responses[y] == ListResponse(Page(StateAt(s.view.log, r.revision), r))
  {
    hide System.Inv, Origin, Evaluate, StateAt, ViewOk, NoExtras, Listing.List, Page;
    var sub := Origin(s, i);
    EvaluateRange(sub.view, sub.req, sub.snapshot, y);
    StoreServes(sub.view, s.view.log, Taken(sub.req, TxnOf(sub))[y].range.revision, Taken(sub.req, TxnOf(sub))[y].range);
  }
}
