/**
 The encoding of a log file: a header, then one length-delimited message per
 record, each carrying its revision and events.
 */
module LogCodec {
  import opened Bytes
  import opened Records
  import opened Wire

  /** An event as the codec sees it: any enum value, and key-values that may be missing. */
  datatype WireEvent = WireEvent(typ: int, kv: Option<KeyValue>, prevKv: Option<KeyValue>)

  type WireRecord = seq<WireEvent>

  /** "cloudetcd-log\x00\x01" */
  const MAGIC: Bytestring := [99, 108, 111, 117, 100, 101, 116, 99, 100, 45, 108, 111, 103, 0, 1]

  datatype Result<+T> = Ok(value: T) | Err

  const EMPTY_KV := KeyValue([], [], 0, 0, 0, 0)
  const EMPTY_EVENT := WireEvent(0, None, None)

  // ---------------------------------------------------------------------
  // Encoding: fields in ascending order, zero values left out

  predicate IsInt64(x: int) {
    -TWO_63 <= x < TWO_63
  }

  /** The integers fit the 64-bit fields they are declared as. */
  predicate KvOk(kv: KeyValue) {
    IsInt64(kv.createRevision) && IsInt64(kv.modRevision) && IsInt64(kv.version) && IsInt64(kv.lease)
  }

  predicate EventOk(e: WireEvent) {
    && -0x8000_0000 <= e.typ < 0x8000_0000
    && (e.kv.Some? ==> KvOk(e.kv.value))
    && (e.prevKv.Some? ==> KvOk(e.prevKv.value))
  }

  function IntField(num: nat, x: int): Bytestring
    requires IsInt64(x)
  {
    if x == 0 then [] else VarintField(num, U64(x))
  }

  function OptBytesField(num: nat, v: Bytestring): Bytestring {
    if v == [] then [] else BytesField(num, v)
  }

  function EncodeKv(kv: KeyValue): Bytestring
    requires KvOk(kv)
  {
    OptBytesField(1, kv.key)
    + (IntField(2, kv.createRevision)
    + (IntField(3, kv.modRevision)
    + (IntField(4, kv.version)
    + (OptBytesField(5, kv.value)
    + IntField(6, kv.lease)))))
  }

  function KvField(num: nat, kv: Option<KeyValue>): Bytestring
    requires kv.Some? ==> KvOk(kv.value)
  {
    if kv.None? then [] else BytesField(num, EncodeKv(kv.value))
  }

  function EncodeEvent(e: WireEvent): Bytestring
    requires EventOk(e)
  {
    IntField(1, e.typ) + (KvField(2, e.kv) + KvField(3, e.prevKv))
  }

  predicate RecordOk(r: WireRecord) {
    forall i :: 0 <= i < |r| ==> EventOk(r[i])
  }

  function EncodeEvents(r: WireRecord): Bytestring
    requires RecordOk(r)
  {
    if r == [] then [] else BytesField(11, EncodeEvent(r[0])) + EncodeEvents(r[1..])
  }

  function EncodeHeader(revision: nat): Bytestring {
    if revision == 0 then [] else VarintField(3, revision)
  }

  /** One record's message: its revision in the header, then its events. */
  function EncodeRecord(revision: nat, r: WireRecord): Bytestring
    requires RecordOk(r)
  {
    BytesField(1, EncodeHeader(revision)) + EncodeEvents(r)
  }

  // ---------------------------------------------------------------------
  // Decoding

  function SetKvInt(kv: KeyValue, num: nat, x: int): KeyValue {
    if num == 2 then kv.(createRevision := x)
    else if num == 3 then kv.(modRevision := x)
    else if num == 4 then kv.(version := x)
    else if num == 6 then kv.(lease := x)
    else kv
  }

  /** Decode the fields of a key-value in `m` over what has been decoded so far. */
  function DecodeKvOver(m: Bytestring, kv: KeyValue): Result<KeyValue>
    decreases |m|
  {
    if m == [] then Ok(kv)
    else
      match ConsumeTag(m)
      case Truncated => Err
      case Malformed => Err
      case Got(tag, n) =>
        var m1 := m[n..];
        if (tag.num == 1 || tag.num == 5) && tag.typ == BYTES then
          match ConsumeBytes(m1)
          case Got(v, k) => DecodeKvOver(m1[k..], if tag.num == 1 then kv.(key := v) else kv.(value := v))
          case _ => Err
        else if tag.typ == VARINT && 2 <= tag.num <= 6 then
          match ConsumeVarint(m1)
          case Got(v, k) => VarintBounded(m1); DecodeKvOver(m1[k..], SetKvInt(kv, tag.num, I64(v)))
          case _ => Err
        else
          match ConsumeFieldValue(tag, m1)
          case Got(_, k) => DecodeKvOver(m1[k..], kv)
          case _ => Err
  }

  function DecodeKv(m: Bytestring): Result<KeyValue> {
    DecodeKvOver(m, EMPTY_KV)
  }

  function DecodeEventOver(m: Bytestring, e: WireEvent): Result<WireEvent>
    decreases |m|
  {
    if m == [] then Ok(e)
    else
      match ConsumeTag(m)
      case Truncated => Err
      case Malformed => Err
      case Got(tag, n) =>
        var m1 := m[n..];
        if tag.num == 1 && tag.typ == VARINT then
          match ConsumeVarint(m1)
          case Got(v, k) => DecodeEventOver(m1[k..], e.(typ := I32(v)))
          case _ => Err
        else if (tag.num == 2 || tag.num == 3) && tag.typ == BYTES then
          match ConsumeBytes(m1)
          case Got(v, k) =>
            (match DecodeKv(v)
             case Ok(kv) => DecodeEventOver(m1[k..], if tag.num == 2 then e.(kv := Some(kv)) else e.(prevKv := Some(kv)))
             case Err => Err)
          case _ => Err
        else
          match ConsumeFieldValue(tag, m1)
          case Got(_, k) => DecodeEventOver(m1[k..], e)
          case _ => Err
  }

  function DecodeEvent(m: Bytestring): Result<WireEvent> {
    DecodeEventOver(m, EMPTY_EVENT)
  }

  function DecodeOver(m: Bytestring, r: WireRecord): Result<WireRecord>
    decreases |m|
  {
    if m == [] then Ok(r)
    else
      match ConsumeTag(m)
      case Truncated => Err
      case Malformed => Err
      case Got(tag, n) =>
        var m1 := m[n..];
        if tag.num == 11 && tag.typ == BYTES then
          match ConsumeBytes(m1)
          case Got(v, k) =>
            (match DecodeEvent(v)
             case Ok(e) => DecodeOver(m1[k..], r + [e])
             case Err => Err)
          case _ => Err
        else
          match ConsumeFieldValue(tag, m1)
          case Got(_, k) => DecodeOver(m1[k..], r)
          case _ => Err
  }

  /** The events of an encoded record. */
  function Decode(m: Bytestring): Result<WireRecord> {
    DecodeOver(m, [])
  }

  function HeaderRevision(h: Bytestring): Result<nat>
    decreases |h|
  {
    if h == [] then Err
    else
      match ConsumeTag(h)
      case Truncated => Err
      case Malformed => Err
      case Got(tag, n) =>
        var h1 := h[n..];
        if tag.num == 3 && tag.typ == VARINT then
          match ConsumeVarint(h1)
          case Got(v, _) => Ok(v)
          case _ => Err
        else
          match ConsumeFieldValue(tag, h1)
          case Got(_, k) => HeaderRevision(h1[k..])
          case _ => Err
  }

  /** The revision of an encoded record, read from its header alone. */
  function RevisionOf(m: Bytestring): Result<nat>
    decreases |m|
  {
    if m == [] then Err
    else
      match ConsumeTag(m)
      case Truncated => Err
      case Malformed => Err
      case Got(tag, n) =>
        var m1 := m[n..];
        if tag.num == 1 && tag.typ == BYTES then
          match ConsumeBytes(m1)
          case Got(h, _) => HeaderRevision(h)
          case _ => Err
        else
          match ConsumeFieldValue(tag, m1)
          case Got(_, k) => RevisionOf(m1[k..])
          case _ => Err
  }

  // ---------------------------------------------------------------------
  // Round trip of one record

  lemma KvTakesBytes(num: nat, v: Bytestring, rest: Bytestring, kv: KeyValue)
    requires (num == 1 || num == 5) && |v| < TWO_64
    ensures DecodeKvOver(BytesField(num, v) + rest, kv) ==
            DecodeKvOver(rest, if num == 1 then kv.(key := v) else kv.(value := v))
  {
    var m := BytesField(num, v) + rest;
    var tail := Varint(|v|) + v + rest;
    assert m == Tag(num, BYTES) + tail;
    TagRoundTrip(num, BYTES, tail);
    assert m[|Tag(num, BYTES)|..] == tail;
    BytesRoundTrip(v, rest);
    assert tail[|Varint(|v|)| + |v|..] == rest;
  }

  lemma KvTakesInt(num: nat, x: int, rest: Bytestring, kv: KeyValue)
    requires num == 2 || num == 3 || num == 4 || num == 6
    requires IsInt64(x)
    ensures DecodeKvOver(VarintField(num, U64(x)) + rest, kv) == DecodeKvOver(rest, SetKvInt(kv, num, x))
  {
    var m := VarintField(num, U64(x)) + rest;
    var tail := Varint(U64(x)) + rest;
    assert m == Tag(num, VARINT) + tail;
    TagRoundTrip(num, VARINT, tail);
    assert m[|Tag(num, VARINT)|..] == tail;
    VarintRoundTrip(U64(x), rest);
    Int64RoundTrip(x);
    assert tail[|Varint(U64(x))|..] == rest;
  }

  lemma KvTakesIntField(num: nat, x: int, rest: Bytestring, kv: KeyValue)
    requires num == 2 || num == 3 || num == 4 || num == 6
    requires IsInt64(x) && kv == SetKvInt(kv, num, 0)
    ensures DecodeKvOver(IntField(num, x) + rest, kv) == DecodeKvOver(rest, SetKvInt(kv, num, x))
  {
    hide DecodeKvOver;
    if x == 0 {
      assert [] + rest == rest;
    } else {
      KvTakesInt(num, x, rest, kv);
    }
  }

  lemma KvTakesOptBytes(num: nat, v: Bytestring, rest: Bytestring, kv: KeyValue)
    requires (num == 1 || num == 5) && |v| < TWO_64
    requires if num == 1 then kv.key == [] else kv.value == []
    ensures DecodeKvOver(OptBytesField(num, v) + rest, kv) ==
            DecodeKvOver(rest, if num == 1 then kv.(key := v) else kv.(value := v))
  {
    hide DecodeKvOver;
    if v == [] {
      assert [] + rest == rest;
    } else {
      KvTakesBytes(num, v, rest, kv);
    }
  }

  lemma KvRoundTrip(kv: KeyValue)
    requires KvOk(kv) && |kv.key| < TWO_64 && |kv.value| < TWO_64
    ensures DecodeKv(EncodeKv(kv)) == Ok(kv)
  {
    hide DecodeKvOver, OptBytesField, IntField;
    var f6 := IntField(6, kv.lease);
    var f5 := OptBytesField(5, kv.value) + f6;
    var f4 := IntField(4, kv.version) + f5;
    var f3 := IntField(3, kv.modRevision) + f4;
    var f2 := IntField(2, kv.createRevision) + f3;
    var k1 := EMPTY_KV.(key := kv.key);
    KvTakesOptBytes(1, kv.key, f2, EMPTY_KV);
    var k2 := k1.(createRevision := kv.createRevision);
    KvTakesIntField(2, kv.createRevision, f3, k1);
    var k3 := k2.(modRevision := kv.modRevision);
    KvTakesIntField(3, kv.modRevision, f4, k2);
    var k4 := k3.(version := kv.version);
    KvTakesIntField(4, kv.version, f5, k3);
    var k5 := k4.(value := kv.value);
    KvTakesOptBytes(5, kv.value, f6, k4);
    assert f6 + [] == f6;
    KvTakesIntField(6, kv.lease, [], k5);
    KvEnd(kv);
  }

  lemma KvEnd(kv: KeyValue)
    ensures DecodeKvOver([], kv) == Ok(kv)
  {
  }

  lemma EventTakesType(x: int, rest: Bytestring, e: WireEvent)
    requires -0x8000_0000 <= x < 0x8000_0000 && e.typ == 0
    ensures DecodeEventOver(IntField(1, x) + rest, e) == DecodeEventOver(rest, e.(typ := x))
  {
    if x == 0 {
      assert IntField(1, x) + rest == rest;
    } else {
      var m := IntField(1, x) + rest;
      var tail := Varint(U64(x)) + rest;
      assert m == Tag(1, VARINT) + tail;
      TagRoundTrip(1, VARINT, tail);
      assert m[|Tag(1, VARINT)|..] == tail;
      VarintRoundTrip(U64(x), rest);
      Int32RoundTrip(x);
      assert tail[|Varint(U64(x))|..] == rest;
    }
  }

  lemma EventTakesKv(num: nat, kv: KeyValue, rest: Bytestring, e: WireEvent)
    requires num == 2 || num == 3
    requires KvOk(kv) && |kv.key| < TWO_64 && |kv.value| < TWO_64 && |EncodeKv(kv)| < TWO_64
    ensures DecodeEventOver(BytesField(num, EncodeKv(kv)) + rest, e) ==
            DecodeEventOver(rest, if num == 2 then e.(kv := Some(kv)) else e.(prevKv := Some(kv)))
  {
    hide EncodeKv, DecodeKv;
    var v := EncodeKv(kv);
    var m := BytesField(num, v) + rest;
    var tail := Varint(|v|) + v + rest;
    assert m == Tag(num, BYTES) + tail;
    TagRoundTrip(num, BYTES, tail);
    assert m[|Tag(num, BYTES)|..] == tail;
    BytesRoundTrip(v, rest);
    assert tail[|Varint(|v|)| + |v|..] == rest;
    KvRoundTrip(kv);
  }

  /** Everything inside an encoded record is at most as long as the record. */
  lemma KvFits(kv: KeyValue)
    requires KvOk(kv)
    ensures |kv.key| <= |EncodeKv(kv)| && |kv.value| <= |EncodeKv(kv)|
  {
  }

  lemma EventFits(e: WireEvent)
    requires EventOk(e)
    ensures e.kv.Some? ==> |EncodeKv(e.kv.value)| <= |EncodeEvent(e)|
    ensures e.prevKv.Some? ==> |EncodeKv(e.prevKv.value)| <= |EncodeEvent(e)|
  {
    hide EncodeKv;
  }

  lemma EventTakesKvField(num: nat, kv: Option<KeyValue>, rest: Bytestring, e: WireEvent)
    requires num == 2 || num == 3
    requires kv.Some? ==> KvOk(kv.value) && |EncodeKv(kv.value)| < TWO_64
    requires if num == 2 then e.kv.None? else e.prevKv.None?
    ensures DecodeEventOver(KvField(num, kv) + rest, e) ==
            DecodeEventOver(rest, if num == 2 then e.(kv := kv) else e.(prevKv := kv))
  {
    hide DecodeEventOver, EncodeKv;
    if kv.None? {
      assert KvField(num, kv) + rest == rest;
    } else {
      KvFits(kv.value);
      EventTakesKv(num, kv.value, rest, e);
    }
  }

  lemma EventRoundTrip(e: WireEvent)
    requires EventOk(e) && |EncodeEvent(e)| < TWO_64
    ensures DecodeEvent(EncodeEvent(e)) == Ok(e)
  {
    hide DecodeEventOver, EncodeKv, KvField, IntField;
    EventFits(e);
    var f3 := KvField(3, e.prevKv);
    var f2 := KvField(2, e.kv) + f3;
    EventTakesType(e.typ, f2, EMPTY_EVENT);
    var e1 := EMPTY_EVENT.(typ := e.typ);
    EventTakesKvField(2, e.kv, f3, e1);
    var e2 := e1.(kv := e.kv);
    assert f3 + [] == f3;
    EventTakesKvField(3, e.prevKv, [], e2);
    EventEnd(e);
  }

  lemma EventEnd(e: WireEvent)
    ensures DecodeEventOver([], e) == Ok(e)
  {
  }

  lemma RecordTakesEvent(e: WireEvent, rest: Bytestring, r: WireRecord)
    requires EventOk(e) && |EncodeEvent(e)| < TWO_64
    ensures DecodeOver(BytesField(11, EncodeEvent(e)) + rest, r) == DecodeOver(rest, r + [e])
  {
    hide EncodeEvent, DecodeEvent;
    var v := EncodeEvent(e);
    var m := BytesField(11, v) + rest;
    var tail := Varint(|v|) + v + rest;
    assert m == Tag(11, BYTES) + tail;
    TagRoundTrip(11, BYTES, tail);
    assert m[|Tag(11, BYTES)|..] == tail;
    BytesRoundTrip(v, rest);
    assert tail[|Varint(|v|)| + |v|..] == rest;
    EventRoundTrip(e);
  }

  lemma {:induction false} EventsRoundTrip(events: WireRecord, r: WireRecord)
    requires RecordOk(events) && |EncodeEvents(events)| < TWO_64
    ensures DecodeOver(EncodeEvents(events), r) == Ok(r + events)
    decreases |events|
  {
    hide DecodeOver, EncodeEvent, BytesField, EventOk;
    if events == [] {
      RecordEnd(r);
      assert r + events == r;
    } else {
      RecordTakesEvent(events[0], EncodeEvents(events[1..]), r);
      EventsRoundTrip(events[1..], r + [events[0]]);
      assert r + events == r + [events[0]] + events[1..];
    }
  }

  lemma RecordEnd(r: WireRecord)
    ensures DecodeOver([], r) == Ok(r)
  {
  }

  lemma SkipHeader(h: Bytestring, rest: Bytestring, r: WireRecord)
    requires |h| < TWO_64
    ensures DecodeOver(BytesField(1, h) + rest, r) == DecodeOver(rest, r)
  {
    var m := BytesField(1, h) + rest;
    var tail := Varint(|h|) + h + rest;
    assert m == Tag(1, BYTES) + tail;
    TagRoundTrip(1, BYTES, tail);
    assert m[|Tag(1, BYTES)|..] == tail;
    BytesRoundTrip(h, rest);
    assert tail[|Varint(|h|)| + |h|..] == rest;
  }

  /** A record fits in memory, and its revision in 64 bits; revision 0 has no encoding. */
  predicate Encodable(revision: nat, r: WireRecord) {
    && 0 < revision < TWO_64
    && RecordOk(r)
    && |EncodeRecord(revision, r)| < TWO_63
  }

  /** Decoding an encoded record gives back its events. */
  lemma RecordRoundTrip(revision: nat, r: WireRecord)
    requires Encodable(revision, r)
    ensures Decode(EncodeRecord(revision, r)) == Ok(r)
  {
    hide DecodeOver, EncodeEvents, EncodeHeader;
    SkipHeader(EncodeHeader(revision), EncodeEvents(r), []);
    EventsRoundTrip(r, []);
    assert [] + r == r;
  }

  lemma HeaderRoundTrip(revision: nat)
    requires 0 < revision < TWO_64
    ensures HeaderRevision(EncodeHeader(revision)) == Ok(revision)
  {
    var h := EncodeHeader(revision);
    var tail := Varint(revision);
    assert tail + [] == tail && Tag(3, VARINT) + tail + [] == h;
    TagRoundTrip(3, VARINT, tail);
    assert h[|Tag(3, VARINT)|..] == tail;
    VarintRoundTrip(revision, []);
  }

  /** The revision can be read without decoding the events. */
  lemma RevisionRoundTrip(revision: nat, r: WireRecord)
    requires Encodable(revision, r)
    ensures RevisionOf(EncodeRecord(revision, r)) == Ok(revision)
  {
    hide EncodeEvents, HeaderRevision, EncodeHeader;
    var h, rest := EncodeHeader(revision), EncodeEvents(r);
    var m := BytesField(1, h) + rest;
    var tail := Varint(|h|) + h + rest;
    assert m == Tag(1, BYTES) + tail;
    TagRoundTrip(1, BYTES, tail);
    assert m[|Tag(1, BYTES)|..] == tail;
    BytesRoundTrip(h, rest);
    HeaderRoundTrip(revision);
  }

  /** A record stored under revision 0 could not be read back. */
  lemma RevisionZeroIsLost(r: WireRecord)
    requires RecordOk(r)
    ensures RevisionOf(EncodeRecord(0, r)) == Err
  {
    hide EncodeEvents;
    var rest := EncodeEvents(r);
    var m := EncodeRecord(0, r);
    var tail := Varint(0) + [] + rest;
    assert m == Tag(1, BYTES) + tail;
    TagRoundTrip(1, BYTES, tail);
    assert m[|Tag(1, BYTES)|..] == tail;
    BytesRoundTrip([], rest);
  }

  // ---------------------------------------------------------------------
  // Files

  datatype Entry = Entry(revision: nat, record: WireRecord)

  ghost predicate EntriesOk(entries: seq<Entry>) {
    forall i :: 0 <= i < |entries| ==> Encodable(entries[i].revision, entries[i].record)
  }

  function Message(e: Entry): Bytestring
    requires RecordOk(e.record)
  {
    EncodeRecord(e.revision, e.record)
  }

  /** A message with its length before it. */
  function Frame(m: Bytestring): Bytestring {
    Varint(|m|) + m
  }

  function Frames(entries: seq<Entry>): Bytestring
    requires forall i :: 0 <= i < |entries| ==> RecordOk(entries[i].record)
  {
    if entries == [] then [] else Frame(Message(entries[0])) + Frames(entries[1..])
  }

  /** A whole file. */
  function File(entries: seq<Entry>): Bytestring
    requires forall i :: 0 <= i < |entries| ==> RecordOk(entries[i].record)
  {
    MAGIC + Frames(entries)
  }

  datatype Span = Span(offset: nat, length: nat)

  datatype Scanned = Scanned(spans: seq<Span>, revisions: seq<nat>, complete: nat)

  /** Scan records from `pos` on, after those already scanned. */
  function ScanFrom(data: Bytestring, s: Scanned): Result<Scanned>
    requires s.complete <= |data|
    decreases |data| - s.complete
  {
    var pos := s.complete;
    if pos == |data| then Ok(s)
    else
      match ConsumeVarint(data[pos..])
      case Truncated => Ok(s)
      case Malformed => Err
      case Got(n, k) =>
        if |data| - pos - k < n then Ok(s)
        else
          match RevisionOf(data[pos + k..pos + k + n])
          case Err => Err
          case Ok(rev) =>
            ScanFrom(data, Scanned(s.spans + [Span(pos + k, n)], s.revisions + [rev], pos + k + n))
  }

  /** The spans and revisions of a file's complete records, and where they end. */
  function Scan(data: Bytestring): Result<Scanned> {
    if !HasPrefix(data, MAGIC) then Err else ScanFrom(data, Scanned([], [], |MAGIC|))
  }

  /** Where the records of a file lie when the first starts at `pos`. */
  function SpansAt(entries: seq<Entry>, pos: nat): seq<Span>
    requires forall i :: 0 <= i < |entries| ==> RecordOk(entries[i].record)
  {
    if entries == [] then []
    else
      var m := Message(entries[0]);
      var k := |Varint(|m|)|;
      [Span(pos + k, |m|)] + SpansAt(entries[1..], pos + k + |m|)
  }

  function RevisionsOf(entries: seq<Entry>): (r: seq<nat>)
    ensures |r| == |entries| && forall i :: 0 <= i < |r| ==> r[i] == entries[i].revision
  {
    seq(|entries|, i requires 0 <= i < |entries| => entries[i].revision)
  }

  /** What a crash may leave at the end of a file: part of a frame, or nothing. */
  ghost predicate Torn(tail: Bytestring) {
    tail == [] || exists m: Bytestring :: |m| < TWO_63 && tail < Frame(m)
  }

  lemma TornStops(data: Bytestring, s: Scanned)
    requires s.complete <= |data| && Torn(data[s.complete..])
    ensures ScanFrom(data, s) == Ok(s)
  {
    var tail := data[s.complete..];
    if tail != [] {
      var m :| |m| < TWO_63 && tail < Frame(m);
      var v := Varint(|m|);
      if |tail| < |v| {
        assert tail == v[..|tail|];
        VarintTorn(|m|, |tail|);
      } else {
        assert tail[..|v|] == v;
        assert tail == v + tail[|v|..];
        VarintRoundTrip(|m|, tail[|v|..]);
      }
    }
  }

  /** The frame of `m` lies at `pos`. */
  ghost predicate FrameAt(data: Bytestring, pos: nat, m: Bytestring) {
    pos + |Frame(m)| <= |data| && data[pos..pos + |Frame(m)|] == Frame(m)
  }

  lemma FrameParts(data: Bytestring, pos: nat, m: Bytestring)
    requires FrameAt(data, pos, m) && |m| < TWO_63
    ensures ConsumeVarint(data[pos..]) == Got(|m|, |Varint(|m|)|)
    ensures pos + |Varint(|m|)| + |m| <= |data|
    ensures data[pos + |Varint(|m|)|..pos + |Varint(|m|)| + |m|] == m
  {
    hide Varint, ConsumeVarint;
    var v := Varint(|m|);
    var f := data[pos..pos + |v| + |m|];
    assert f == v + m;
    assert data[pos..] == f + data[pos + |v| + |m|..] == v + (m + data[pos + |v| + |m|..]);
    VarintRoundTrip(|m|, m + data[pos + |v| + |m|..]);
    assert data[pos + |v|..pos + |v| + |m|] == f[|v|..] == m;
  }

  /** Scanned so far, with one more record of length `length` and revision `revision`. */
  function Next(s: Scanned, m: Bytestring, revision: nat): Scanned {
    var k := |Varint(|m|)|;
    Scanned(s.spans + [Span(s.complete + k, |m|)], s.revisions + [revision], s.complete + k + |m|)
  }

  lemma ScanTakesFrame(data: Bytestring, s: Scanned, e: Entry)
    requires Encodable(e.revision, e.record)
    requires FrameAt(data, s.complete, Message(e))
    ensures Next(s, Message(e), e.revision).complete <= |data|
    ensures ScanFrom(data, s) == ScanFrom(data, Next(s, Message(e), e.revision))
  {
    hide EncodeRecord, RevisionOf, Varint, ConsumeVarint, FrameAt;
    FrameParts(data, s.complete, Message(e));
    RevisionRoundTrip(e.revision, e.record);
  }

  /** Scanned so far, with the records `entries` after it. */
  function Through(s: Scanned, entries: seq<Entry>): Scanned
    requires forall i :: 0 <= i < |entries| ==> RecordOk(entries[i].record)
  {
    Scanned(s.spans + SpansAt(entries, s.complete), s.revisions + RevisionsOf(entries), s.complete + |Frames(entries)|)
  }

  lemma SpansNext(entries: seq<Entry>, pos: nat)
    requires entries != [] && forall i :: 0 <= i < |entries| ==> RecordOk(entries[i].record)
    ensures var m := Message(entries[0]);
            var k := |Varint(|m|)|;
            && SpansAt(entries, pos) == [Span(pos + k, |m|)] + SpansAt(entries[1..], pos + k + |m|)
            && |Frames(entries)| == k + |m| + |Frames(entries[1..])|
  {
    hide RecordOk, Message, Varint;
  }

  lemma ThroughNext(s: Scanned, entries: seq<Entry>)
    requires entries != [] && forall i :: 0 <= i < |entries| ==> RecordOk(entries[i].record)
    ensures Through(s, entries) == Through(Next(s, Message(entries[0]), entries[0].revision), entries[1..])
  {
    hide RecordOk, Message, Varint, SpansAt, Frames, RevisionsOf;
    var e, rest := entries[0], entries[1..];
    var n := Next(s, Message(e), e.revision);
    var k := |Varint(|Message(e)|)|;
    SpansNext(entries, s.complete);
    RevisionsNext(entries);
    Assoc(s.spans, [Span(s.complete + k, |Message(e)|)], SpansAt(rest, n.complete));
    Assoc(s.revisions, [e.revision], RevisionsOf(rest));
  }

  lemma Assoc<T>(a: seq<T>, b: seq<T>, c: seq<T>)
    ensures a + (b + c) == (a + b) + c
  {
  }

  lemma RevisionsNext(entries: seq<Entry>)
    requires entries != []
    ensures RevisionsOf(entries) == [entries[0].revision] + RevisionsOf(entries[1..])
  {
  }

  lemma {:induction false} ScanThrough(data: Bytestring, s: Scanned, entries: seq<Entry>)
    requires EntriesOk(entries) && s.complete <= |data| && Frames(entries) <= data[s.complete..]
    ensures Through(s, entries).complete <= |data|
    ensures ScanFrom(data, s) == ScanFrom(data, Through(s, entries))
    decreases |entries|
  {
    hide ScanFrom, EncodeRecord;
    if entries == [] {
      assert Through(s, entries) == s;
    } else {
      var m := Message(entries[0]);
      FrameIsFirst(data, s.complete, m, Frames(entries[1..]));
      ScanTakesFrame(data, s, entries[0]);
      ThroughNext(s, entries);
      ScanThrough(data, Next(s, m, entries[0].revision), entries[1..]);
    }
  }

  lemma FrameIsFirst(data: Bytestring, pos: nat, m: Bytestring, rest: Bytestring)
    requires pos <= |data| && Frame(m) + rest <= data[pos..]
    ensures FrameAt(data, pos, m)
    ensures pos + |Frame(m)| <= |data| && rest <= data[pos + |Frame(m)|..]
  {
    hide Varint;
    var f := Frame(m);
    var d := data[pos..];
    assert d[..|f|] == (f + rest)[..|f|] == f;
    assert data[pos..pos + |f|] == d[..|f|];
    assert data[pos + |f|..] == d[|f|..];
    assert d[|f|..][..|rest|] == (f + rest)[|f|..] == rest;
  }

  /**
   Scanning a file of records, followed by whatever part of a frame a crash
   left, returns exactly those records' spans and revisions, and where they end.
   */
  lemma ScanIsExact(entries: seq<Entry>, tail: Bytestring)
    requires EntriesOk(entries) && Torn(tail)
    ensures Scan(File(entries) + tail) ==
            Ok(Scanned(SpansAt(entries, |MAGIC|), RevisionsOf(entries), |File(entries)|))
  {
    hide ScanFrom, Frames, SpansAt, Torn, EntriesOk;
    EntriesAreRecords(entries);
    var data := File(entries) + tail;
    var s := Scanned([], [], |MAGIC|);
    assert data == MAGIC + (Frames(entries) + tail);
    assert data[..|MAGIC|] == MAGIC && data[|MAGIC|..] == Frames(entries) + tail;
    ScanThrough(data, s, entries);
    var t := Through(s, entries);
    assert [] + SpansAt(entries, |MAGIC|) == SpansAt(entries, |MAGIC|);
    assert [] + RevisionsOf(entries) == RevisionsOf(entries);
    assert data[t.complete..] == tail;
    TornStops(data, t);
  }

  lemma EntriesAreRecords(entries: seq<Entry>)
    requires EntriesOk(entries)
    ensures forall i :: 0 <= i < |entries| ==> RecordOk(entries[i].record)
  {
  }

  lemma {:induction false} FramesConcat(a: seq<Entry>, b: seq<Entry>)
    requires forall i :: 0 <= i < |a| ==> RecordOk(a[i].record)
    requires forall i :: 0 <= i < |b| ==> RecordOk(b[i].record)
    ensures forall i :: 0 <= i < |a + b| ==> RecordOk((a + b)[i].record)
    ensures Frames(a + b) == Frames(a) + Frames(b)
    decreases |a|
  {
    hide RecordOk, Message, Varint;
    if a == [] {
      assert a + b == b;
      assert Frames(a) + Frames(b) == Frames(b);
    } else {
      assert (a + b)[1..] == a[1..] + b;
      FramesConcat(a[1..], b);
      Assoc(Frame(Message(a[0])), Frames(a[1..]), Frames(b));
    }
  }

  /** Appending the frames of more records to a file makes the file of all of them. */
  lemma FileAppend(a: seq<Entry>, b: seq<Entry>)
    requires forall i :: 0 <= i < |a| ==> RecordOk(a[i].record)
    requires forall i :: 0 <= i < |b| ==> RecordOk(b[i].record)
    ensures forall i :: 0 <= i < |a + b| ==> RecordOk((a + b)[i].record)
    ensures File(a + b) == File(a) + Frames(b)
  {
    hide RecordOk, Frames;
    FramesConcat(a, b);
    Assoc(MAGIC, Frames(a), Frames(b));
  }

  lemma {:induction false} SpanLocates(entries: seq<Entry>, pos: nat, data: Bytestring, i: nat)
    requires i < |entries| && forall j :: 0 <= j < |entries| ==> RecordOk(entries[j].record)
    requires pos <= |data| && Frames(entries) <= data[pos..]
    ensures |SpansAt(entries, pos)| == |entries|
    ensures var s := SpansAt(entries, pos)[i];
            s.offset + s.length <= |data| && data[s.offset..s.offset + s.length] == Message(entries[i])
    decreases |entries|
  {
    hide RecordOk, Message, Varint;
    var m := Message(entries[0]);
    SpansNext(entries, pos);
    FrameIsFirst(data, pos, m, Frames(entries[1..]));
    FrameHolds(data, pos, m);
    if i > 0 {
      SpanLocates(entries[1..], pos + |Varint(|m|)| + |m|, data, i - 1);
    } else {
      SpansCount(entries, pos);
    }
  }

  lemma {:induction false} SpansCount(entries: seq<Entry>, pos: nat)
    requires forall j :: 0 <= j < |entries| ==> RecordOk(entries[j].record)
    ensures |SpansAt(entries, pos)| == |entries|
    decreases |entries|
  {
    hide RecordOk, Message, Varint;
    if entries != [] {
      var m := Message(entries[0]);
      SpansCount(entries[1..], pos + |Varint(|m|)| + |m|);
    }
  }

  lemma FrameHolds(data: Bytestring, pos: nat, m: Bytestring)
    requires FrameAt(data, pos, m)
    ensures var k := |Varint(|m|)|;
            pos + k + |m| <= |data| && data[pos + k..pos + k + |m|] == m
  {
    hide Varint;
    var v := Varint(|m|);
    assert data[pos + |v|..pos + |v| + |m|] == data[pos..pos + |v| + |m|][|v|..] == m;
  }

  /** Every span a scan reports holds the record that was written there, and decodes to it. */
  lemma SpanDecodes(entries: seq<Entry>, tail: Bytestring, i: nat)
    requires EntriesOk(entries) && i < |entries|
    ensures |SpansAt(entries, |MAGIC|)| == |entries|
    ensures var data := File(entries) + tail;
            var s := SpansAt(entries, |MAGIC|)[i];
            && s.offset + s.length <= |data|
            && RevisionOf(data[s.offset..s.offset + s.length]) == Ok(entries[i].revision)
            && Decode(data[s.offset..s.offset + s.length]) == Ok(entries[i].record)
  {
    hide Frames, SpansAt, Decode, RevisionOf, EncodeRecord;
    EntriesAreRecords(entries);
    var data := File(entries) + tail;
    assert data[|MAGIC|..] == Frames(entries) + tail;
    SpanLocates(entries, |MAGIC|, data, i);
    RevisionRoundTrip(entries[i].revision, entries[i].record);
    RecordRoundTrip(entries[i].revision, entries[i].record);
  }

  // ---------------------------------------------------------------------
  // Torn tails

  /** How many of the records, laid out from 0, lie wholly before byte `c`. */
  function WholeBefore(entries: seq<Entry>, c: nat): (j: nat)
    requires forall i :: 0 <= i < |entries| ==> RecordOk(entries[i].record)
    ensures j <= |entries|
  {
    if entries == [] then 0
    else
      var f := |Frame(Message(entries[0]))|;
      if c < f then 0 else 1 + WholeBefore(entries[1..], c - f)
  }

  /** Byte `c` of the frames falls in or before record `j`, and after those before it. */
  ghost predicate CutAt(entries: seq<Entry>, c: nat, j: nat)
    requires forall i :: 0 <= i < |entries| ==> RecordOk(entries[i].record)
  {
    && j <= |entries|
    && |Frames(entries[..j])| <= c <= |Frames(entries)|
    && (j < |entries| ==> c < |Frames(entries[..j + 1])|)
    && Frames(entries)[..c] == Frames(entries[..j]) + Frames(entries)[|Frames(entries[..j])|..c]
    && Torn(Frames(entries)[|Frames(entries[..j])|..c])
  }

  lemma {:induction false} FramesCut(entries: seq<Entry>, c: nat)
    requires EntriesOk(entries)
    requires forall i :: 0 <= i < |entries| ==> RecordOk(entries[i].record)
    requires c <= |Frames(entries)|
    ensures CutAt(entries, c, WholeBefore(entries, c))
    decreases |entries|
  {
    hide RecordOk, Message, Varint, CutAt, Encodable;
    if entries == [] {
      NothingToCut();
    } else {
      var f := Frame(Message(entries[0]));
      if c < |f| {
        CutInFirst(entries, c);
      } else {
        FramesCut(entries[1..], c - |f|);
        CutAfterFirst(entries, c, WholeBefore(entries[1..], c - |f|));
      }
    }
  }

  lemma NothingToCut()
    ensures CutAt([], 0, 0)
  {
    var none: seq<Entry> := [];
    assert none[..0] == [];
  }

  lemma CutInFirst(entries: seq<Entry>, c: nat)
    requires entries != [] && EntriesOk(entries) && c < |Frame(Message(entries[0]))|
    ensures CutAt(entries, c, 0)
  {
    hide EncodeRecord, Varint;
    var m := Message(entries[0]);
    assert entries[..1] == [entries[0]] && entries[..1][1..] == [] && entries[..0] == [];
    assert Frames(entries)[0..c] == Frame(m)[..c] == Frames(entries)[..c];
    assert Frame(m)[..c] < Frame(m);
  }

  lemma CutAfterFirst(entries: seq<Entry>, c: nat, i: nat)
    requires entries != []
    requires forall x :: 0 <= x < |entries| ==> RecordOk(entries[x].record)
    requires |Frame(Message(entries[0]))| <= c
    requires CutAt(entries[1..], c - |Frame(Message(entries[0]))|, i)
    ensures CutAt(entries, c, i + 1)
  {
    hide Torn, Message, Varint, RecordOk;
    var f := Frame(Message(entries[0]));
    var rest, j, d := entries[1..], i + 1, c - |f|;
    FramesTake(entries, j);
    if j < |entries| {
      FramesTake(entries, j + 1);
    }
    var all := Frames(entries);
    assert all == f + Frames(rest);
    assert all[|Frames(entries[..j])|..c] == Frames(rest)[|Frames(rest[..i])|..d];
    assert all[..c] == f + Frames(rest)[..d];
    Assoc(f, Frames(rest[..i]), Frames(rest)[|Frames(rest[..i])|..d]);
  }

  lemma FramesTake(entries: seq<Entry>, j: nat)
    requires 0 < j <= |entries| && forall i :: 0 <= i < |entries| ==> RecordOk(entries[i].record)
    ensures Frames(entries[..j]) == Frame(Message(entries[0])) + Frames(entries[1..][..j - 1])
  {
    hide RecordOk, Message, Varint;
    assert entries[..j][1..] == entries[1..][..j - 1];
  }

  /**
   Torn tail: however a file is cut at or after its header, scanning it
   returns exactly the records that lie wholly before the cut, and ends where
   they end; so truncating there and appending again makes a whole file.
   */
  lemma CutIsExact(entries: seq<Entry>, c: nat, more: seq<Entry>)
    requires EntriesOk(entries) && EntriesOk(more) && |MAGIC| <= c <= |File(entries)|
    ensures var j := WholeBefore(entries, c - |MAGIC|);
            var data := File(entries)[..c];
            && |File(entries[..j])| <= c
            && (j < |entries| ==> c < |File(entries[..j + 1])|)
            && Scan(data) == Ok(Scanned(SpansAt(entries[..j], |MAGIC|), RevisionsOf(entries[..j]), |File(entries[..j])|))
            && (forall i :: 0 <= i < |entries[..j] + more| ==> RecordOk((entries[..j] + more)[i].record))
            && data[..|File(entries[..j])|] + Frames(more) == File(entries[..j] + more)
  {
    hide Frames, SpansAt, Scan, Torn, WholeBefore, RecordOk;
    EntriesAreRecords(entries);
    EntriesAreRecords(more);
    var d := c - |MAGIC|;
    FramesCut(entries, d);
    var j := WholeBefore(entries, d);
    var kept := entries[..j];
    var tail := Frames(entries)[|Frames(kept)|..d];
    assert File(entries)[..c] == MAGIC + Frames(entries)[..d];
    Assoc(MAGIC, Frames(kept), tail);
    assert File(entries)[..c] == File(kept) + tail;
    ScanIsExact(kept, tail);
    assert (File(kept) + tail)[..|File(kept)|] == File(kept);
    FileAppend(kept, more);
  }
}
