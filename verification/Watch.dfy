/**
 Watch delivery: a watcher follows the log from its start revision, sending
 the events it asked for in responses that may span several revisions.
 */
module Watch {
  import opened Bytes
  import opened Records
  import opened Listing
  import opened Mvcc
  import opened System
  import opened RadixTree
  import opened BPTrees
  import opened MemoryStorage

  datatype Filter = NOPUT | NODELETE

  datatype RangeType = RangeTypeKey | RangeTypeRangeNoEnd | RangeTypeRangeNormal

  datatype WatchRequest = WatchRequest(key: Key, rangeEnd: Key, startRevision: Revision, filters: seq<Filter>, prevKv: bool)

  datatype WatchResponse = WatchResponse(header: Revision, events: seq<Event>)

  /** What came of sending: all delivered, a record that could not be read, or a response the callback refused. */
  datatype Delivery = Delivered | Unread(revision: Revision) | Refused(response: WatchResponse)

  const MAX_REVISIONS := 256
  const MAX_EVENTS := 512

  // ---------------------------------------------------------------------
  // What a watcher should receive

  /** The keys asked for: one key, or those from `key` on, up to an end unless that is "\x00". */
  predicate KeyWanted(req: WatchRequest, key: Key) {
    if req.rangeEnd == [] then key == req.key
    else AtMost(req.key, key) && BeforeEnd(key, req.rangeEnd)
  }

  predicate Wanted(req: WatchRequest, e: Event) {
    && !IsInternalKey(e.kv.key)
    && !(NOPUT in req.filters && e.typ == PUT)
    && !(NODELETE in req.filters && e.typ == DELETE)
    && KeyWanted(req, e.kv.key)
  }

  function Shown(req: WatchRequest, e: Event): Event {
    if req.prevKv then e else e.(prevKv := None)
  }

  /** Of these events, those the watcher asked for, in the form it asked for. */
  function ToSend(req: WatchRequest, events: seq<Event>): seq<Event> {
    if events == [] then []
    else
      var n := |events| - 1;
      ToSend(req, events[..n]) + if Wanted(req, events[n]) then [Shown(req, events[n])] else []
  }

  /** The events of a run of records, in order. */
  function EventsOf(records: seq<LogRecord>): seq<Event> {
    if records == [] then [] else EventsOf(records[..|records| - 1]) + records[|records| - 1]
  }

  /** The records after `a` up to `b`. */
  function Between(log: seq<LogRecord>, a: Revision, b: Revision): seq<LogRecord> {
    if a <= b <= |log| then log[a..b] else []
  }

  function Sent(responses: seq<WatchResponse>): seq<Event> {
    if responses == [] then [] else Sent(responses[..|responses| - 1]) + responses[|responses| - 1].events
  }

  lemma {:induction false} ToSendConcat(req: WatchRequest, a: seq<Event>, b: seq<Event>)
    ensures ToSend(req, a + b) == ToSend(req, a) + ToSend(req, b)
    decreases |b|
  {
    hide Wanted, Shown;
    if b == [] {
      assert a + b == a;
    } else {
      var n := |b| - 1;
      assert (a + b)[..|a + b| - 1] == a + b[..n];
      ToSendConcat(req, a, b[..n]);
    }
  }

  /** Nothing that was not asked for, and everything that was. */
  lemma {:induction false} ToSendHas(req: WatchRequest, events: seq<Event>, e: Event)
    ensures e in ToSend(req, events) <==> exists i :: 0 <= i < |events| && Wanted(req, events[i]) && e == Shown(req, events[i])
    decreases |events|
  {
    hide Wanted, Shown;
    if events != [] {
      var n := |events| - 1;
      ToSendHas(req, events[..n], e);
      if e in ToSend(req, events[..n]) {
        var i :| 0 <= i < n && Wanted(req, events[..n][i]) && e == Shown(req, events[..n][i]);
        assert events[i] == events[..n][i];
      }
      if i :| 0 <= i < |events| && Wanted(req, events[i]) && e == Shown(req, events[i]) {
        assert i < n ==> events[..n][i] == events[i];
      }
    }
  }

  // ---------------------------------------------------------------------
  // The watcher

  class MemoryWatcher {
    const req: WatchRequest
    const rangeType: RangeType
    const storage: MemoryStorage
    const accepts: WatchResponse -> bool      // whether the callback succeeds
    const state: WatcherState                 // its position, for other goroutines
    var watchDoneRevision: Revision
    var logPosition: Revision

    ghost const start: Revision
    ghost var responses: seq<WatchResponse>

    /** What was sent is what the log has for this watcher, from its start to where it is. */
    ghost predicate Valid()
      reads this, state, storage, storage.revisions, storage.revisions.root, storage.revisions.root.Repr
    {
      && storage.Valid()
      && state.delivered == watchDoneRevision
      && rangeType == TypeOf(req)
      && start <= watchDoneRevision && logPosition <= |storage.log|
      && (watchDoneRevision <= |storage.log| || watchDoneRevision == start)
      && Sent(responses) == ToSend(req, EventsOf(Between(storage.log, start, watchDoneRevision)))
      && Headed(responses, start, watchDoneRevision)
    }

    /** Begin after the last record, or where the request says. */
    constructor (request: WatchRequest, m: MemoryStorage, ok: WatchResponse -> bool)
      requires m.Valid()
      ensures Valid() && responses == [] && storage == m && req == request && fresh(state) && !state.closed
      ensures watchDoneRevision == start == if request.startRevision == 0 then |m.log| else request.startRevision - 1
      ensures logPosition == |m.log|
    {
      req, storage, accepts, responses := request, m, ok, [];
      rangeType := if |request.rangeEnd| > 0
                   then if request.rangeEnd == [0] then RangeTypeRangeNoEnd else RangeTypeRangeNormal
                   else RangeTypeKey;
      logPosition := |m.log|;
      var done := request.startRevision;
      if done == 0 {
        done := |m.log|;
      } else {
        done := done - 1;
      }
      watchDoneRevision, start := done, done;
      state := new WatcherState(done);
    }

    /** The events of one revision that this watcher should receive, in the form it sends them. */
    method Collect(pos: Revision) returns (ok: bool, events: seq<Event>)
      requires storage.Valid() && rangeType == TypeOf(req)
      ensures ok <==> ReadLog(storage.Seen(), pos).Some?
      ensures ok ==> events == ToSend(req, ReadLog(storage.Seen(), pos).value)
    {
      hide Wanted, Less;
      var record := storage.GetLogEntry(pos);
      if record.None? {
        return false, [];
      }
      var all := record.value;
      var send: seq<Event> := [];
      assert all[..0] == [];
      for i := 0 to |all|
        invariant SentAs(req, send) == ToSend(req, all[..i])
      {
        assert all[..i + 1][..i] == all[..i];
        var wanted := ShouldSend(all[i]);
        SentAsNext(req, send, all[i]);
        if wanted {
          send := send + [all[i]];
        }
      }
      assert all[..|all|] == all;
      if !req.prevKv {
        var bare: seq<Event> := [];
        for i := 0 to |send|
          invariant bare == SentAs(req, send[..i])
        {
          SentAsNext(req, send[..i], send[i]);
          assert send[..i + 1] == send[..i] + [send[i]];
          bare := bare + [send[i].(prevKv := None)];
        }
        assert send[..|send|] == send;
        send := bare;
      } else {
        SentAsIs(req, send);
      }
      return true, send;
    }

    method ShouldSend(e: Event) returns (wanted: bool)
      requires rangeType == TypeOf(req)
      ensures wanted == Wanted(req, e)
    {
      if IsInternalKey(e.kv.key) {
        return false;
      }
      wanted := true;
      for i := 0 to |req.filters|
        invariant wanted == !((NOPUT in req.filters[..i] && e.typ == PUT) || (NODELETE in req.filters[..i] && e.typ == DELETE))
      {
        match req.filters[i] {
          case NOPUT =>
            if e.typ == PUT {
              wanted := false;
            }
          case NODELETE =>
            if e.typ == DELETE {
              wanted := false;
            }
        }
        assert req.filters[..i + 1] == req.filters[..i] + [req.filters[i]];
      }
      assert req.filters[..|req.filters|] == req.filters;
      if !wanted {
        return;
      }
      LessTotal(req.key, e.kv.key);
      if Less(e.kv.key, req.key) {
        LessAsymmetric(e.kv.key, req.key);
      }
      LessIrreflexive(req.key);
      match rangeType {
        case RangeTypeKey =>
          if e.kv.key != req.key {
            wanted := false;
          }
        case RangeTypeRangeNormal =>
          if Less(e.kv.key, req.key) || !Less(e.kv.key, req.rangeEnd) {
            wanted := false;
          }
        case RangeTypeRangeNoEnd =>
          if Less(e.kv.key, req.key) {
            wanted := false;
          }
      }
    }

    /** The log has grown. */
    method OnLogEntry(position: Revision)
      requires Valid() && position <= |storage.log|
      modifies this`logPosition
      ensures Valid() && logPosition == position
    {
      logPosition := position;
    }

    /** The log has grown; what was sent is still what it has for this watcher. */
    twostate lemma GrowthKeeps()
      requires old(Valid()) && unchanged(this, state) && storage.Valid() && old(storage.log) <= storage.log
      ensures Valid()
    {
      hide ToSend, EventsOf, Sent, Headed, TreeNode.Valid, WellFormed;
      var more := storage.log[|old(storage.log)|..];
      assert old(storage.log) + more == storage.log;
      LogGrows(old(storage.log), more, start, watchDoneRevision);
    }

    /** A response for the revisions after `from`, as this watcher should be sent it. */
    ghost predicate IsNext(response: WatchResponse, from: Revision, position: Revision)
      reads this, storage
    {
      && from < response.header <= position && response.events != []
      && response.events == ToSend(req, EventsOf(Between(storage.log, from, response.header)))
    }

    /** Send one response for as many revisions as are ready, within bounds. */
    method Pass(position: Revision) returns (r: Delivery)
      requires Valid() && watchDoneRevision < position <= |storage.log|
      modifies this`watchDoneRevision, this`responses, state`delivered
      ensures Valid() && old(responses) <= responses
      ensures r.Delivered? ==> old(watchDoneRevision) < watchDoneRevision <= position
      ensures r.Delivered? ==> watchDoneRevision <= old(watchDoneRevision) + MAX_REVISIONS
      ensures !r.Delivered? ==> watchDoneRevision == old(watchDoneRevision) && responses == old(responses)
      ensures r.Unread? ==> watchDoneRevision < r.revision <= position && ReadLog(storage.Seen(), r.revision).None?
      ensures r.Refused? ==> !accepts(r.response) && IsNext(r.response, watchDoneRevision, position)
    {
      hide ToSend, EventsOf, Sent, Headed, TreeNode.Valid, WellFormed;
      var events: seq<Event> := [];
      var last := watchDoneRevision;
      ghost var from := watchDoneRevision;
      NothingBetween(req, storage.log, from);
      while last < position && last - watchDoneRevision < MAX_REVISIONS && |events| < MAX_EVENTS
        invariant Valid() && responses == old(responses)
        invariant from == watchDoneRevision <= last <= position && last - from <= MAX_REVISIONS
        invariant last == from ==> events == []
        invariant events == ToSend(req, EventsOf(Between(storage.log, from, last)))
        decreases position - last
      {
        var next := last + 1;
        var read, evs := Collect(next);
        if !read {
          return Unread(next);
        }
        OneMore(req, storage.log, from, last);
        events := events + evs;
        last := next;
      }
      ReadOn(req, storage.log, start, from, last);
      if |events| > 0 {
        var response := WatchResponse(last, events);
        if !accepts(response) {
          return Refused(response);
        }
        SentNext(responses, response, start, from);
        responses := responses + [response];
      } else {
        HeadedLater(responses, start, from, last);
        assert Sent(responses) + [] == Sent(responses);
      }
      watchDoneRevision := last;
      state.delivered := last;
      r := Delivered;
    }

    /** This is watcher `i` of a system whose store this is. */
    ghost predicate Watches(s: Sys, i: nat)
      reads this, state, storage, storage.revisions, storage.revisions.root, storage.revisions.root.Repr
      requires storage.Valid()
    {
      && System.Inv(s) && s.view == storage.Seen()
      && i < |s.watchers| && !s.watchers[i].closed && s.watchers[i].delivered <= watchDoneRevision
    }

    /**
     Deliver everything up to the log position the watcher has been told of. In
     a system, no record of it is missing: it stops short only where the callback
     refuses the response it was given.
     */
    method CatchUp(ghost s: Sys, ghost i: nat) returns (r: Delivery)
      requires Valid()
      modifies this`watchDoneRevision, this`responses, state`delivered
      ensures Valid() && old(responses) <= responses && old(watchDoneRevision) <= watchDoneRevision
      ensures r.Delivered? ==> watchDoneRevision >= logPosition
      ensures r.Unread? ==> watchDoneRevision < r.revision <= logPosition && ReadLog(storage.Seen(), r.revision).None?
      ensures r.Refused? ==> !accepts(r.response) && IsNext(r.response, watchDoneRevision, logPosition)
      ensures old(Watches(s, i)) ==> !r.Unread?
    {
      hide ToSend, EventsOf, Sent, Headed, TreeNode.Valid, WellFormed, System.Inv;
      ghost var inSystem := Watches(s, i);
      var position := logPosition;
      while watchDoneRevision < position
        invariant Valid() && old(responses) <= responses && old(watchDoneRevision) <= watchDoneRevision
        decreases position - watchDoneRevision
      {
        r := Pass(position);
        if !r.Delivered? {
          if inSystem && r.Unread? {
            WatcherIsNeverCutOff(s, i, r.revision);
          }
          return;
        }
      }
      r := Delivered;
    }
  }

  /**
   Open a watch. One that starts at or below the compaction point is refused;
   one that is opened has not delivered anything below it.
   */
  method OpenWatch(m: MemoryStorage, id: int, request: WatchRequest, ok: WatchResponse -> bool) returns (w: MemoryWatcher?)
    requires m.Valid()
    modifies m`watchers
    ensures w == null <==> 0 < request.startRevision <= m.compacted || id == 0
    ensures m.watchers == if w == null then old(m.watchers) else old(m.watchers) + [w.state]
    ensures w != null ==> fresh(w) && w.Valid() && w.storage == m && w.req == request && w.responses == [] && !w.state.closed
    ensures w != null && m.compacted <= |m.log| ==> m.compacted <= w.watchDoneRevision
  {
    hide TreeNode.Valid, WellFormed;
    if 0 < request.startRevision <= m.compacted || id == 0 {
      return null;
    }
    w := new MemoryWatcher(request, m, ok);
    m.watchers := m.watchers + [w.state];
  }

  /** What a watcher has been sent does not change when the log grows. */
  lemma LogGrows(log: seq<LogRecord>, more: seq<LogRecord>, start: Revision, done: Revision)
    requires start <= done && (done <= |log| || done == start)
    ensures EventsOf(Between(log + more, start, done)) == EventsOf(Between(log, start, done))
  {
    if done <= |log| {
      assert (log + more)[start..done] == log[start..done];
    }
  }

  lemma NothingBetween(req: WatchRequest, log: seq<LogRecord>, a: Revision)
    ensures ToSend(req, EventsOf(Between(log, a, a))) == []
  {
  }

  lemma OneMore(req: WatchRequest, log: seq<LogRecord>, a: Revision, b: Revision)
    requires a <= b < |log|
    ensures ToSend(req, EventsOf(Between(log, a, b + 1))) == ToSend(req, EventsOf(Between(log, a, b))) + ToSend(req, log[b])
  {
    hide ToSend;
    assert log[a..b + 1][..b - a] == log[a..b];
    ToSendConcat(req, EventsOf(Between(log, a, b)), log[b]);
  }

  lemma {:induction false} EventsConcat(a: seq<LogRecord>, b: seq<LogRecord>)
    ensures EventsOf(a + b) == EventsOf(a) + EventsOf(b)
    decreases |b|
  {
    if b == [] {
      assert a + b == a;
    } else {
      var n := |b| - 1;
      assert (a + b)[..|a + b| - 1] == a + b[..n] && (a + b)[|a + b| - 1] == b[n];
      EventsConcat(a, b[..n]);
      assert EventsOf(a) + EventsOf(b[..n]) + b[n] == EventsOf(a) + (EventsOf(b[..n]) + b[n]);
    }
  }

  lemma ReadOn(req: WatchRequest, log: seq<LogRecord>, a: Revision, b: Revision, c: Revision)
    requires a <= b <= c <= |log|
    ensures ToSend(req, EventsOf(Between(log, a, c))) ==
            ToSend(req, EventsOf(Between(log, a, b))) + ToSend(req, EventsOf(Between(log, b, c)))
  {
    hide ToSend, EventsOf;
    assert log[a..c] == log[a..b] + log[b..c];
    EventsConcat(log[a..b], log[b..c]);
    ToSendConcat(req, EventsOf(log[a..b]), EventsOf(log[b..c]));
  }

  lemma SentNext(responses: seq<WatchResponse>, r: WatchResponse, start: Revision, done: Revision)
    requires Headed(responses, start, done) && start <= done < r.header && r.events != []
    ensures Sent(responses + [r]) == Sent(responses) + r.events && Headed(responses + [r], start, r.header)
  {
    assert (responses + [r])[..|responses|] == responses;
  }

  lemma HeadedLater(responses: seq<WatchResponse>, start: Revision, done: Revision, later: Revision)
    requires Headed(responses, start, done) && done <= later
    ensures Headed(responses, start, later)
  {
  }

  function TypeOf(req: WatchRequest): RangeType {
    if req.rangeEnd == [] then RangeTypeKey
    else if req.rangeEnd == [0] then RangeTypeRangeNoEnd
    else RangeTypeRangeNormal
  }

  /** Responses are not empty, and their headers ascend. */
  ghost predicate Headed(responses: seq<WatchResponse>, start: Revision, done: Revision) {
    && (forall i :: 0 <= i < |responses| ==> responses[i].events != [] && start < responses[i].header <= done)
    && (forall i, j :: 0 <= i < j < |responses| ==> responses[i].header < responses[j].header)
  }

  /** Chosen events, as they are sent. */
  function SentAs(req: WatchRequest, events: seq<Event>): (r: seq<Event>)
    ensures |r| == |events|
    ensures forall i :: 0 <= i < |r| ==> r[i] == Shown(req, events[i])
  {
    seq(|events|, i requires 0 <= i < |events| => Shown(req, events[i]))
  }

  lemma SentAsNext(req: WatchRequest, events: seq<Event>, e: Event)
    ensures SentAs(req, events + [e]) == SentAs(req, events) + [Shown(req, e)]
    ensures !req.prevKv ==> Shown(req, e) == e.(prevKv := None)
  {
  }

  lemma SentAsIs(req: WatchRequest, events: seq<Event>)
    requires req.prevKv
    ensures SentAs(req, events) == events
  {
  }
}
