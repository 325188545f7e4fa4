/**
 The loops that read and write the log's encoding, each proved to compute the
 function of the same purpose in `LogCodec.dfy`.
 */
module LogCodecLoops {
  import opened Bytes
  import opened Records
  import opened Wire
  import opened LogCodec

  function Zip(revisions: seq<nat>, records: seq<WireRecord>): (entries: seq<Entry>)
    requires |revisions| == |records|
    ensures |entries| == |records|
    ensures forall i :: 0 <= i < |entries| ==> entries[i] == Entry(revisions[i], records[i])
  {
    seq(|records|, i requires 0 <= i < |records| => Entry(revisions[i], records[i]))
  }

  lemma {:induction false} SpansConcat(a: seq<Entry>, b: seq<Entry>, pos: nat)
    requires forall i :: 0 <= i < |a| ==> RecordOk(a[i].record)
    requires forall i :: 0 <= i < |b| ==> RecordOk(b[i].record)
    ensures forall i :: 0 <= i < |a + b| ==> RecordOk((a + b)[i].record)
    ensures SpansAt(a + b, pos) == SpansAt(a, pos) + SpansAt(b, pos + |Frames(a)|)
    decreases |a|
  {
    hide RecordOk, Message, Varint, SpansAt, Frames;
    if a == [] {
      NoFrames(pos);
      assert a + b == b;
      assert SpansAt(a, pos) + SpansAt(b, pos) == SpansAt(b, pos);
    } else {
      var m := Message(a[0]);
      var k := |Varint(|m|)|;
      assert (a + b)[1..] == a[1..] + b;
      SpansConcat(a[1..], b, pos + k + |m|);
      SpansNext(a, pos);
      SpansNext(a + b, pos);
      Assoc([Span(pos + k, |m|)], SpansAt(a[1..], pos + k + |m|), SpansAt(b, pos + |Frames(a)|));
    }
  }

  lemma OneFrame(e: Entry, pos: nat)
    requires RecordOk(e.record)
    ensures Frames([e]) == Frame(Message(e))
    ensures SpansAt([e], pos) == [Span(pos + |Varint(|Message(e)|)|, |Message(e)|)]
  {
    hide EncodeRecord, Varint;
    var es := [e];
    assert es[1..] == [];
    assert Frame(Message(e)) + [] == Frame(Message(e));
  }

  /** Append the encoding of records at the given revisions; spans are relative to the buffer's start. */
  method AppendRecordsAt(buf0: Bytestring, revisions: seq<nat>, records: seq<WireRecord>)
    returns (ok: bool, buf: Bytestring, spans: seq<Span>)
    requires forall i :: 0 <= i < |records| ==> RecordOk(records[i])
    ensures ok == (|revisions| == |records|)
    ensures ok ==> buf == buf0 + Frames(Zip(revisions, records)) && spans == SpansAt(Zip(revisions, records), |buf0|)
  {
    hide RecordOk, EncodeRecord, Varint, Frames, SpansAt;
    if |revisions| != |records| {
      return false, [], [];
    }
    ghost var entries := Zip(revisions, records);
    buf, spans, ok := buf0, [], true;
    var i := 0;
    NoFrames(|buf0|);
    assert entries[..0] == [];
    while i < |records|
      invariant 0 <= i <= |records|
      invariant buf == buf0 + Frames(entries[..i])
      invariant spans == SpansAt(entries[..i], |buf0|)
    {
      var m := EncodeRecord(revisions[i], records[i]);
      AppendOne(entries, i, buf0);
      buf := buf + Varint(|m|);
      spans := spans + [Span(|buf|, |m|)];
      buf := buf + m;
      i := i + 1;
    }
    assert entries[..i] == entries;
  }

  lemma NoFrames(pos: nat)
    ensures Frames([]) == [] && SpansAt([], pos) == []
  {
  }

  lemma AppendOne(entries: seq<Entry>, i: nat, buf0: Bytestring)
    requires i < |entries| && forall j :: 0 <= j < |entries| ==> RecordOk(entries[j].record)
    ensures var m := Message(entries[i]);
            var buf := buf0 + Frames(entries[..i]);
            && buf0 + Frames(entries[..i + 1]) == buf + Varint(|m|) + m
            && SpansAt(entries[..i + 1], |buf0|) == SpansAt(entries[..i], |buf0|) + [Span(|buf + Varint(|m|)|, |m|)]
  {
    hide RecordOk, Message, Varint, Frames, SpansAt;
    var a, b := entries[..i], [entries[i]];
    assert entries[..i + 1] == a + b;
    FramesConcat(a, b);
    SpansConcat(a, b, |buf0|);
    OneFrame(entries[i], |buf0| + |Frames(a)|);
    var m := Message(entries[i]);
    Assoc(buf0, Frames(a), Frame(m));
    Assoc(buf0 + Frames(a), Varint(|m|), m);
  }

  /** Scan the complete records of a file. */
  method ScanFile(data: Bytestring) returns (r: Result<Scanned>)
    ensures r == Scan(data)
  {
    hide RevisionOf, ConsumeVarint;
    if !(|MAGIC| <= |data| && data[..|MAGIC|] == MAGIC) {
      return Err;
    }
    var spans: seq<Span>, revisions: seq<nat>, pos := [], [], |MAGIC|;
    while pos < |data|
      invariant pos <= |data|
      invariant Scan(data) == ScanFrom(data, Scanned(spans, revisions, pos))
    {
      var c := ConsumeVarint(data[pos..]);
      match c
      case Truncated => return Ok(Scanned(spans, revisions, pos));
      case Malformed => return Err;
      case Got(n, k) =>
        if |data| - pos - k < n {
          return Ok(Scanned(spans, revisions, pos));
        }
        var rev := ReadRevision(data[pos + k..pos + k + n]);
        if rev.Err? {
          return Err;
        }
        spans := spans + [Span(pos + k, n)];
        revisions := revisions + [rev.value];
        pos := pos + k + n;
    }
    return Ok(Scanned(spans, revisions, pos));
  }

  /** Scan a file that must have no torn tail. */
  method Offsets(data: Bytestring) returns (r: Result<Scanned>)
    ensures r == if Scan(data).Ok? && Scan(data).value.complete == |data| then Scan(data) else Err
  {
    r := ScanFile(data);
    if r.Ok? && r.value.complete != |data| {
      r := Err;
    }
  }

  method ReadRevision(m0: Bytestring) returns (r: Result<nat>)
    ensures r == RevisionOf(m0)
  {
    hide ConsumeTag, ConsumeBytes, ConsumeFieldValue, HeaderRevision;
    var m := m0;
    while |m| > 0
      invariant RevisionOf(m0) == RevisionOf(m)
      decreases |m|
    {
      var t := ConsumeTag(m);
      if !t.Got? {
        return Err;
      }
      var m1 := m[t.n..];
      if t.value.num == 1 && t.value.typ == BYTES {
        var h := ConsumeBytes(m1);
        if !h.Got? {
          return Err;
        }
        r := ReadHeader(h.value);
        return;
      }
      var k := ConsumeFieldValue(t.value, m1);
      if !k.Got? {
        return Err;
      }
      m := m1[k.n..];
    }
    return Err;
  }

  method ReadHeader(h0: Bytestring) returns (r: Result<nat>)
    ensures r == HeaderRevision(h0)
  {
    hide ConsumeTag, ConsumeVarint, ConsumeFieldValue;
    var h := h0;
    while |h| > 0
      invariant HeaderRevision(h0) == HeaderRevision(h)
      decreases |h|
    {
      var t := ConsumeTag(h);
      if !t.Got? {
        return Err;
      }
      var h1 := h[t.n..];
      if t.value.num == 3 && t.value.typ == VARINT {
        var v := ConsumeVarint(h1);
        return if v.Got? then Ok(v.value) else Err;
      }
      var k := ConsumeFieldValue(t.value, h1);
      if !k.Got? {
        return Err;
      }
      h := h1[k.n..];
    }
    return Err;
  }

  /** Decode a record's events. */
  method DecodeAlias(m0: Bytestring) returns (r: Result<WireRecord>)
    ensures r == Decode(m0)
  {
    hide ConsumeTag, ConsumeBytes, ConsumeFieldValue, DecodeEvent;
    var m, events := m0, [];
    while |m| > 0
      invariant Decode(m0) == DecodeOver(m, events)
      decreases |m|
    {
      var t := ConsumeTag(m);
      if !t.Got? {
        return Err;
      }
      var m1 := m[t.n..];
      if t.value.num == 11 && t.value.typ == BYTES {
        var v := ConsumeBytes(m1);
        if !v.Got? {
          return Err;
        }
        var e := DecodeEventAlias(v.value);
        if e.Err? {
          return Err;
        }
        events := events + [e.value];
        m := m1[v.n..];
      } else {
        var k := ConsumeFieldValue(t.value, m1);
        if !k.Got? {
          return Err;
        }
        m := m1[k.n..];
      }
    }
    return Ok(events);
  }

  method DecodeEventAlias(m0: Bytestring) returns (r: Result<WireEvent>)
    ensures r == DecodeEvent(m0)
  {
    hide ConsumeTag, ConsumeBytes, ConsumeVarint, ConsumeFieldValue, DecodeKv, I32;
    var m, ev := m0, EMPTY_EVENT;
    while |m| > 0
      invariant DecodeEvent(m0) == DecodeEventOver(m, ev)
      decreases |m|
    {
      var t := ConsumeTag(m);
      if !t.Got? {
        return Err;
      }
      var m1 := m[t.n..];
      if t.value.num == 1 && t.value.typ == VARINT {
        var v := ConsumeVarint(m1);
        if !v.Got? {
          return Err;
        }
        ev := ev.(typ := I32(v.value));
        m := m1[v.n..];
      } else if (t.value.num == 2 || t.value.num == 3) && t.value.typ == BYTES {
        var v := ConsumeBytes(m1);
        if !v.Got? {
          return Err;
        }
        var kv := DecodeKeyValueAlias(v.value);
        if kv.Err? {
          return Err;
        }
        ev := if t.value.num == 2 then ev.(kv := Some(kv.value)) else ev.(prevKv := Some(kv.value));
        m := m1[v.n..];
      } else {
        var k := ConsumeFieldValue(t.value, m1);
        if !k.Got? {
          return Err;
        }
        m := m1[k.n..];
      }
    }
    return Ok(ev);
  }

  method DecodeKeyValueAlias(m0: Bytestring) returns (r: Result<KeyValue>)
    ensures r == DecodeKv(m0)
  {
    hide ConsumeTag, ConsumeBytes, ConsumeVarint, ConsumeFieldValue, I64;
    var m, kv := m0, EMPTY_KV;
    while |m| > 0
      invariant DecodeKv(m0) == DecodeKvOver(m, kv)
      decreases |m|
    {
      var t := ConsumeTag(m);
      if !t.Got? {
        return Err;
      }
      var m1 := m[t.n..];
      if (t.value.num == 1 || t.value.num == 5) && t.value.typ == BYTES {
        var v := ConsumeBytes(m1);
        if !v.Got? {
          return Err;
        }
        kv := if t.value.num == 1 then kv.(key := v.value) else kv.(value := v.value);
        m := m1[v.n..];
      } else if t.value.typ == VARINT && 2 <= t.value.num <= 6 {
        var v := ConsumeVarint(m1);
        if !v.Got? {
          return Err;
        }
        VarintBounded(m1);
        kv := SetKvInt(kv, t.value.num, I64(v.value));
        m := m1[v.n..];
      } else {
        var k := ConsumeFieldValue(t.value, m1);
        if !k.Got? {
          return Err;
        }
        m := m1[k.n..];
      }
    }
    return Ok(kv);
  }
}
