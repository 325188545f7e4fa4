/**
 Rewriting log files: picking out a file's live records and streaming them to
 the file that replaces a group.
 */
module Rewriting {
  import opened Bytes
  import opened Records
  import opened Wire
  import opened LogCodec
  import opened LogCodecLoops
  import opened LogFiles
  import opened FileIndex

  /** Every event carries the key-value pair it is about. */
  predicate HasKeys(record: WireRecord) {
    forall i :: 0 <= i < |record| ==> record[i].kv.Some?
  }

  /** What a file's index entry says of its records. */
  ghost predicate Describes(f: LogFile, entries: seq<Entry>, data: Bytestring) {
    && EntriesOk(entries)
    && (forall i :: 0 <= i < |entries| ==> RecordOk(entries[i].record))
    && data == File(entries)
    && f.size == |data|
    && f.spans == SpansAt(entries, |MAGIC|)
    && (f.sparse ==> f.revisions == RevisionsOf(entries))
    && (!f.sparse ==> DenseOk(RevisionsOf(entries), f.first))
  }

  lemma FileDescribes(d: Directory, s: Segment, log: seq<WireRecord>, dropped: set<nat>)
    requires SegmentOk(s, |log|) && LogFits(log) && Holds(d, s, log, dropped, []) && Whole(s, dropped)
    ensures SegName(s) in d && Describes(FileOf(s, log, dropped), Content(s, log, dropped), d[SegName(s)])
  {
    hide LogFits, Kept, SpansAt, EntriesOk, Frames, RecordOk, DenseOk;
    var c := Content(s, log, dropped);
    KeptFits(log, s.first, s.last, dropped);
    EntriesAreRecords(c);
    if !s.sparse {
      KeptWhole(log, s.first, s.last, dropped);
    }
    assert File(c) + [] == File(c);
  }

  function Encoded(entries: seq<Entry>): (ms: seq<Bytestring>)
    requires forall i :: 0 <= i < |entries| ==> RecordOk(entries[i].record)
    ensures |ms| == |entries|
    ensures forall i :: 0 <= i < |ms| ==> ms[i] == Message(entries[i])
  {
    seq(|entries|, i requires 0 <= i < |entries| => Message(entries[i]))
  }

  lemma LiveOfNext(entries: seq<Entry>, dead: set<nat>, x: nat)
    requires x < |entries|
    ensures LiveOf(entries[..x + 1], dead) == LiveOf(entries[..x], dead) + if entries[x].revision in dead then [] else [entries[x]]
  {
    assert entries[..x + 1][..x] == entries[..x];
  }

  /** A record is live if any key it touches is, when the record is asked about. */
  method IsLive(record: WireRecord, revision: nat, live: Ask, t0: nat) returns (isLive: bool, t: nat)
    requires HasKeys(record)
    ensures t0 <= t
    ensures isLive ==> SeenLive(record, revision, live, t0, t)
    ensures !isLive ==> SeenDead(record, revision, live, t0, t)
  {
    t := t0;
    var i := 0;
    while i < |record|
      invariant 0 <= i <= |record| && t0 <= t
      invariant forall j :: 0 <= j < i ==> DeadBetween(record[j].kv.value.key, revision, live, t0, t)
    {
      var key := record[i].kv.value.key;
      var answer := live(t, key, revision);
      t := t + 1;
      if answer {
        assert LiveBetween(key, revision, live, t0, t);
        return true, t;
      }
      assert DeadBetween(key, revision, live, t0, t);
      i := i + 1;
    }
    isLive := false;
  }

  /** The revision of a file's record `i`. */
  function RevisionAt(f: LogFile, i: nat): nat
    requires f.sparse ==> i < |f.revisions|
  {
    if f.sparse then f.revisions[i] else f.first + i
  }

  /** The bytes of a file's record, which decode to it. */
  lemma SpanIsRecord(f: LogFile, entries: seq<Entry>, data: Bytestring, x: nat)
    requires Describes(f, entries, data) && x < |entries|
    ensures |f.spans| == |entries| && (f.sparse ==> |f.revisions| == |entries|)
    ensures f.spans[x].offset + f.spans[x].length <= |data|
    ensures var m := data[f.spans[x].offset..f.spans[x].offset + f.spans[x].length];
            m == Message(entries[x]) && Decode(m) == Ok(entries[x].record)
    ensures RevisionAt(f, x) == entries[x].revision
  {
    hide SpansAt, EntriesOk, Frames, RecordOk, Decode, RevisionOf, EncodeRecord;
    SpanDecodes(entries, [], x);
    assert File(entries) + [] == File(entries);
    assert data[|MAGIC|..] == Frames(entries);
    SpanLocates(entries, |MAGIC|, data, x);
    if !f.sparse {
      assert RevisionsOf(entries)[x] == f.first + x;
    }
  }

  /** Each entry was found dead, if it is in `dead`, or else live. */
  ghost predicate Asked(entries: seq<Entry>, dead: set<nat>, live: Ask, t0: nat, t: nat) {
    && t0 <= t
    && (forall r :: r in dead ==> r in RevisionsOf(entries))
    && forall i :: 0 <= i < |entries| ==>
         if entries[i].revision in dead then SeenDead(entries[i].record, entries[i].revision, live, t0, t)
         else SeenLive(entries[i].record, entries[i].revision, live, t0, t)
  }

  ghost predicate Ascends(entries: seq<Entry>) {
    forall i, j :: 0 <= i < j < |entries| ==> entries[i].revision < entries[j].revision
  }

  lemma SeenLater(record: WireRecord, revision: nat, live: Ask, t0: nat, t: nat, t1: nat)
    requires t <= t1
    ensures SeenDead(record, revision, live, t0, t) ==> SeenDead(record, revision, live, t0, t1)
    ensures SeenLive(record, revision, live, t0, t) ==> SeenLive(record, revision, live, t0, t1)
  {
    if SeenDead(record, revision, live, t0, t) {
      forall i | 0 <= i < |record| && record[i].kv.Some?
        ensures DeadBetween(record[i].kv.value.key, revision, live, t0, t1)
      {
        assert DeadBetween(record[i].kv.value.key, revision, live, t0, t);
      }
    }
    if SeenLive(record, revision, live, t0, t) {
      var i :| 0 <= i < |record| && record[i].kv.Some? && LiveBetween(record[i].kv.value.key, revision, live, t0, t);
      assert LiveBetween(record[i].kv.value.key, revision, live, t0, t1);
    }
  }

  lemma SeenSooner(record: WireRecord, revision: nat, live: Ask, t0: nat, t: nat, t1: nat)
    requires t0 <= t
    ensures SeenDead(record, revision, live, t, t1) ==> SeenDead(record, revision, live, t0, t1)
    ensures SeenLive(record, revision, live, t, t1) ==> SeenLive(record, revision, live, t0, t1)
  {
    if SeenDead(record, revision, live, t, t1) {
      forall i | 0 <= i < |record| && record[i].kv.Some?
        ensures DeadBetween(record[i].kv.value.key, revision, live, t0, t1)
      {
        assert DeadBetween(record[i].kv.value.key, revision, live, t, t1);
      }
    }
    if SeenLive(record, revision, live, t, t1) {
      var i :| 0 <= i < |record| && record[i].kv.Some? && LiveBetween(record[i].kv.value.key, revision, live, t, t1);
      assert LiveBetween(record[i].kv.value.key, revision, live, t0, t1);
    }
  }

  /** One more entry has been asked about. */
  lemma AskedNext(entries: seq<Entry>, x: nat, dead: set<nat>, live: Ask, t0: nat, t: nat, t1: nat, isLive: bool)
    requires x < |entries| && Ascends(entries) && Asked(entries[..x], dead, live, t0, t) && t <= t1
    requires if isLive then SeenLive(entries[x].record, entries[x].revision, live, t, t1)
             else SeenDead(entries[x].record, entries[x].revision, live, t, t1)
    ensures entries[x].revision !in dead
    ensures var more := if isLive then dead else dead + {entries[x].revision};
            && Asked(entries[..x + 1], more, live, t0, t1)
            && LiveOf(entries[..x + 1], more) == LiveOf(entries[..x], dead) + if isLive then [entries[x]] else []
  {
    hide SeenLive, SeenDead, LiveOf;
    var e := entries[x];
    var more := if isLive then dead else dead + {e.revision};
    assert forall i :: 0 <= i < x ==> RevisionsOf(entries[..x])[i] == entries[i].revision;
    assert RevisionsOf(entries[..x + 1]) == RevisionsOf(entries[..x]) + [e.revision];
    forall i | 0 <= i < x + 1
      ensures if entries[i].revision in more then SeenDead(entries[i].record, entries[i].revision, live, t0, t1)
              else SeenLive(entries[i].record, entries[i].revision, live, t0, t1)
    {
      if i < x {
        assert entries[..x][i] == entries[i];
        SeenLater(entries[i].record, entries[i].revision, live, t0, t, t1);
      } else {
        SeenSooner(e.record, e.revision, live, t0, t, t1);
      }
    }
    LiveOfNext(entries, more, x);
    LiveOfSame(entries[..x], dead, more);
  }

  lemma {:induction false} LiveOfSame(entries: seq<Entry>, a: set<nat>, b: set<nat>)
    requires forall i :: 0 <= i < |entries| ==> (entries[i].revision in a <==> entries[i].revision in b)
    ensures LiveOf(entries, a) == LiveOf(entries, b)
  {
    if entries != [] {
      LiveOfSame(entries[..|entries| - 1], a, b);
    }
  }

  /** The live records of a file, in order, and how many are dead, as it is found while they are read. */
  method LiveRecords(f: LogFile, data: Bytestring, live: Ask, t0: nat, ghost entries: seq<Entry>)
    returns (dead: nat, messages: seq<Bytestring>, revisions: seq<nat>, t: nat, ghost gone: set<nat>)
    requires Describes(f, entries, data) && Ascends(entries)
    requires forall i :: 0 <= i < |entries| ==> HasKeys(entries[i].record)
    ensures Asked(entries, gone, live, t0, t) && dead == |gone|
    ensures forall i :: 0 <= i < |LiveOf(entries, gone)| ==> RecordOk(LiveOf(entries, gone)[i].record)
    ensures messages == Encoded(LiveOf(entries, gone)) && revisions == RevisionsOf(LiveOf(entries, gone))
  {
    hide Describes, RecordOk, LiveOf, Asked, Decode, HasKeys, Message, SeenLive, SeenDead, Ascends;
    DescribesOk(f, entries, data);
    dead, messages, revisions, t, gone := 0, [], [], t0, {};
    ghost var done: seq<Entry> := [];
    LiveOfNone(entries, live, t0);
    var x := 0;
    while x < |f.spans|
      invariant 0 <= x <= |f.spans| == |entries|
      invariant done == LiveOf(entries[..x], gone)
      invariant forall i :: 0 <= i < |done| ==> RecordOk(done[i].record)
      invariant messages == Encoded(done) && revisions == RevisionsOf(done)
      invariant Asked(entries[..x], gone, live, t0, t) && dead == |gone|
    {
      SpanIsRecord(f, entries, data, x);
      var m := data[f.spans[x].offset..f.spans[x].offset + f.spans[x].length];
      var rev := RevisionAt(f, x);
      var record := DecodeAlias(m);
      var isLive, t1 := IsLive(record.value, rev, live, t);
      AskedNext(entries, x, gone, live, t0, t, t1, isLive);
      t := t1;
      if isLive {
        done := done + [entries[x]];
        messages := messages + [m];
        revisions := revisions + [rev];
      } else {
        gone := gone + {entries[x].revision};
        dead := dead + 1;
      }
      x := x + 1;
    }
    assert entries[..x] == entries;
  }

  lemma LiveOfNone(entries: seq<Entry>, live: Ask, t: nat)
    ensures LiveOf(entries[..0], {}) == [] && Asked(entries[..0], {}, live, t, t)
  {
  }

  /** What the records of a file weigh when files are put together: their bytes, and four for each. */
  function Weight(messages: seq<Bytestring>): nat {
    if messages == [] then 0 else Weight(messages[..|messages| - 1]) + |messages[|messages| - 1]| + 4
  }

  method Weigh(messages: seq<Bytestring>) returns (bytes: nat)
    ensures bytes == Weight(messages)
  {
    bytes := 0;
    for i := 0 to |messages|
      invariant bytes == Weight(messages[..i])
    {
      assert messages[..i + 1][..i] == messages[..i];
      bytes := bytes + |messages[i]| + 4;
    }
    assert messages[..|messages|] == messages;
  }

  lemma DescribesOk(f: LogFile, entries: seq<Entry>, data: Bytestring)
    requires Describes(f, entries, data)
    ensures |f.spans| == |entries|
    ensures forall i :: 0 <= i < |entries| ==> RecordOk(entries[i].record)
  {
    hide SpansAt, EntriesOk, Frames, RecordOk;
    SpansCount(entries, |MAGIC|);
  }

  // ---------------------------------------------------------------------
  // Writing the replacement

  /** The replacement as far as it has been written. */
  ghost predicate Written(bytes: Bytestring, spans: seq<Span>, revisions: seq<nat>, done: seq<Entry>) {
    && (forall i :: 0 <= i < |done| ==> RecordOk(done[i].record))
    && bytes == File(done)
    && spans == SpansAt(done, |MAGIC|)
    && revisions == RevisionsOf(done)
  }

  lemma WrittenNone()
    ensures Written(MAGIC, [], [], [])
  {
    NoFrames(|MAGIC|);
  }

  lemma WrittenNext(bytes: Bytestring, spans: seq<Span>, revisions: seq<nat>, done: seq<Entry>, e: Entry)
    requires Written(bytes, spans, revisions, done) && RecordOk(e.record)
    ensures var m := Message(e);
            Written(bytes + Varint(|m|) + m, spans + [Span(|bytes| + |Varint(|m|)|, |m|)], revisions + [e.revision], done + [e])
  {
    hide RecordOk, Message, Varint, Frames, SpansAt;
    var all := done + [e];
    AppendOne(all, |done|, MAGIC);
    assert all[..|done|] == done && all[..|done| + 1] == all;
  }

  /** Write encoded records with their lengths before them. */
  method WriteRecords(bytes0: Bytestring, spans0: seq<Span>, revisions0: seq<nat>, messages: seq<Bytestring>,
                      revs: seq<nat>, ghost done: seq<Entry>, ghost more: seq<Entry>)
    returns (bytes: Bytestring, spans: seq<Span>, revisions: seq<nat>)
    requires Written(bytes0, spans0, revisions0, done)
    requires forall i :: 0 <= i < |more| ==> RecordOk(more[i].record)
    requires messages == Encoded(more) && revs == RevisionsOf(more)
    ensures Written(bytes, spans, revisions, done + more)
  {
    hide Written, RecordOk, Message, Varint;
    bytes, spans, revisions := bytes0, spans0, revisions0;
    var i := 0;
    assert done + more[..0] == done;
    while i < |messages|
      invariant 0 <= i <= |messages|
      invariant Written(bytes, spans, revisions, done + more[..i])
    {
      var m := messages[i];
      WrittenNext(bytes, spans, revisions, done + more[..i], more[i]);
      assert done + more[..i] + [more[i]] == done + more[..i + 1];
      spans := spans + [Span(|bytes| + |Varint(|m|)|, |m|)];
      revisions := revisions + [revs[i]];
      bytes := bytes + Varint(|m|) + m;
      i := i + 1;
    }
    assert more[..i] == more;
  }
}
