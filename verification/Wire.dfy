/**
 The parts of the Protocol Buffers wire format the log uses ("Base 128 Varints"
 and "Message Structure" in the Protocol Buffers Encoding guide): what is
 written, and how it is read back.
 */
module Wire {
  import opened Bytes

  type Bytestring = seq<byte>

  const TWO_63: int := 0x8000_0000_0000_0000
  const TWO_64: int := 0x1_0000_0000_0000_0000

  /** What consuming from the front of a buffer gives: a value and its length, or why not. */
  datatype Consumed<+T> = Got(value: T, n: nat) | Truncated | Malformed

  // ---------------------------------------------------------------------
  // Varints

  function Varint(v: nat): (b: Bytestring)
    ensures |b| > 0
  {
    if v < 128 then [v as byte] else [(v % 128 + 128) as byte] + Varint(v / 128)
  }

  /** Read a varint whose first `i` bytes have been read; the tenth may only be 0 or 1. */
  function ConsumeVarintFrom(b: Bytestring, i: nat): (r: Consumed<nat>)
    requires i <= 9
    ensures r.Got? ==> 0 < r.n <= |b| && r.n <= 10 - i
    decreases 9 - i
  {
    if b == [] then Truncated
    else if i == 9 then
      if b[0] < 2 then Got(b[0] as nat, 1) else Malformed
    else if b[0] < 128 then Got(b[0] as nat, 1)
    else
      match ConsumeVarintFrom(b[1..], i + 1)
      case Got(v, n) => Got((b[0] as nat - 128) + 128 * v, n + 1)
      case Truncated => Truncated
      case Malformed => Malformed
  }

  function ConsumeVarint(b: Bytestring): (r: Consumed<nat>)
    ensures r.Got? ==> 0 < r.n <= |b|
  {
    ConsumeVarintFrom(b, 0)
  }

  /** The values that fit in what is left of a varint after `i` bytes. */
  function Limit(i: nat): nat
    requires i <= 9
    decreases 9 - i
  {
    if i == 9 then 2 else 128 * Limit(i + 1)
  }

  lemma LimitIsUint64()
    ensures Limit(0) == TWO_64
  {
    assert Limit(8) == 0x100;
    assert Limit(7) == 0x8000;
    assert Limit(6) == 0x40_0000;
    assert Limit(5) == 0x2000_0000;
    assert Limit(4) == 0x10_0000_0000;
    assert Limit(3) == 0x800_0000_0000;
    assert Limit(2) == 0x4_0000_0000_0000;
    assert Limit(1) == 0x200_0000_0000_0000;
  }

  lemma {:induction false} VarintFromRoundTrip(v: nat, i: nat, tail: Bytestring)
    requires i <= 9 && v < Limit(i)
    ensures ConsumeVarintFrom(Varint(v) + tail, i) == Got(v, |Varint(v)|)
    decreases 9 - i
  {
    var b := Varint(v) + tail;
    if v >= 128 {
      assert b[1..] == Varint(v / 128) + tail;
      VarintFromRoundTrip(v / 128, i + 1, tail);
    }
  }

  /** Every 64-bit value reads back as itself, whatever follows it. */
  lemma VarintRoundTrip(v: nat, tail: Bytestring)
    requires v < TWO_64
    ensures ConsumeVarint(Varint(v) + tail) == Got(v, |Varint(v)|)
  {
    LimitIsUint64();
    VarintFromRoundTrip(v, 0, tail);
  }

  lemma {:induction false} VarintFromTorn(v: nat, i: nat, c: nat)
    requires i <= 9 && v < Limit(i) && c < |Varint(v)|
    ensures ConsumeVarintFrom(Varint(v)[..c], i) == Truncated
    decreases 9 - i
  {
    if c > 0 {
      assert v >= 128;
      assert Varint(v)[..c][1..] == Varint(v / 128)[..c - 1];
      VarintFromTorn(v / 128, i + 1, c - 1);
    }
  }

  /** A varint cut short reads as truncated, never as another value. */
  lemma VarintTorn(v: nat, c: nat)
    requires v < TWO_64 && c < |Varint(v)|
    ensures ConsumeVarint(Varint(v)[..c]) == Truncated
  {
    LimitIsUint64();
    VarintFromTorn(v, 0, c);
  }

  // ---------------------------------------------------------------------
  // Integers as varints carry them

  function U64(x: int): (u: nat)
    requires -TWO_63 <= x < TWO_63
    ensures u < TWO_64
  {
    if x < 0 then x + TWO_64 else x
  }

  function I64(u: nat): (x: int)
    requires u < TWO_64
    ensures -TWO_63 <= x < TWO_63
  {
    if u >= TWO_63 then u - TWO_64 else u
  }

  lemma Int64RoundTrip(x: int)
    requires -TWO_63 <= x < TWO_63
    ensures I64(U64(x)) == x
  {
  }

  /** The low 32 bits, as a signed number. */
  function I32(u: nat): int {
    var w := u % 0x1_0000_0000;
    if w >= 0x8000_0000 then w - 0x1_0000_0000 else w
  }

  lemma Int32RoundTrip(x: int)
    requires -0x8000_0000 <= x < 0x8000_0000
    ensures I32(U64(x)) == x
  {
    if x < 0 {
      assert U64(x) == 0xFFFF_FFFF * 0x1_0000_0000 + (x + 0x1_0000_0000);
    }
  }

  lemma {:induction false} VarintFromBounded(b: Bytestring, i: nat)
    requires i <= 9 && ConsumeVarintFrom(b, i).Got?
    ensures ConsumeVarintFrom(b, i).value < Limit(i)
    decreases 9 - i
  {
    if i < 9 && b[0] >= 128 {
      VarintFromBounded(b[1..], i + 1);
      assert b[0] as nat - 128 < 128;
    }
  }

  lemma VarintBounded(b: Bytestring)
    requires ConsumeVarint(b).Got?
    ensures ConsumeVarint(b).value < TWO_64
  {
    LimitIsUint64();
    VarintFromBounded(b, 0);
  }

  // ---------------------------------------------------------------------
  // Fields

  const VARINT: nat := 0
  const FIXED64: nat := 1
  const BYTES: nat := 2
  const START_GROUP: nat := 3
  const END_GROUP: nat := 4
  const FIXED32: nat := 5

  function Tag(num: nat, typ: nat): Bytestring {
    Varint(8 * num + typ)
  }

  datatype FieldTag = FieldTag(num: nat, typ: nat)

  function ConsumeTag(b: Bytestring): (r: Consumed<FieldTag>)
    ensures r.Got? ==> 0 < r.n <= |b|
  {
    match ConsumeVarint(b)
    case Got(v, n) =>
      if v / 8 > 0x7FFF_FFFF || v / 8 < 1 then Malformed else Got(FieldTag(v / 8, v % 8), n)
    case Truncated => Truncated
    case Malformed => Malformed
  }

  function ConsumeBytes(b: Bytestring): (r: Consumed<Bytestring>)
    ensures r.Got? ==> 0 < r.n <= |b| && |r.value| <= |b|
  {
    match ConsumeVarint(b)
    case Got(m, n) => if m > |b| - n then Truncated else Got(b[n..n + m], n + m)
    case Truncated => Truncated
    case Malformed => Malformed
  }

  /** The length of a field's value, for skipping it; groups nest up to a depth limit. */
  function SkipValue(tag: FieldTag, b: Bytestring, depth: int): (r: Consumed<()>)
    ensures r.Got? ==> r.n <= |b|
    decreases |b|, 1
  {
    if tag.typ == VARINT then
      (match ConsumeVarint(b) case Got(_, n) => Got((), n) case Truncated => Truncated case Malformed => Malformed)
    else if tag.typ == FIXED32 then
      if |b| < 4 then Truncated else Got((), 4)
    else if tag.typ == FIXED64 then
      if |b| < 8 then Truncated else Got((), 8)
    else if tag.typ == BYTES then
      (match ConsumeBytes(b) case Got(_, n) => Got((), n) case Truncated => Truncated case Malformed => Malformed)
    else if tag.typ == START_GROUP then
      if depth < 0 then Malformed else SkipGroup(tag.num, b, depth)
    else Malformed
  }

  function SkipGroup(num: nat, b: Bytestring, depth: int): (r: Consumed<()>)
    ensures r.Got? ==> r.n <= |b|
    decreases |b|, 0
  {
    match ConsumeTag(b)
    case Truncated => Truncated
    case Malformed => Malformed
    case Got(tag, n) =>
      if tag.typ == END_GROUP then
        if tag.num != num then Malformed else Got((), n)
      else
        match SkipValue(tag, b[n..], depth - 1)
        case Truncated => Truncated
        case Malformed => Malformed
        case Got(_, k) =>
          match SkipGroup(num, b[n + k..], depth)
          case Truncated => Truncated
          case Malformed => Malformed
          case Got(_, rest) => Got((), n + k + rest)
  }

  const RECURSION_LIMIT: int := 10000

  function ConsumeFieldValue(tag: FieldTag, b: Bytestring): (r: Consumed<()>)
    ensures r.Got? ==> r.n <= |b|
  {
    SkipValue(tag, b, RECURSION_LIMIT)
  }

  function VarintField(num: nat, v: nat): Bytestring {
    Tag(num, VARINT) + Varint(v)
  }

  function BytesField(num: nat, v: Bytestring): (b: Bytestring)
    ensures |b| > |v|
  {
    Tag(num, BYTES) + Varint(|v|) + v
  }

  lemma TagRoundTrip(num: nat, typ: nat, tail: Bytestring)
    requires 1 <= num <= 15 && typ < 8
    ensures ConsumeTag(Tag(num, typ) + tail) == Got(FieldTag(num, typ), |Tag(num, typ)|)
  {
    VarintRoundTrip(8 * num + typ, tail);
  }

  lemma BytesRoundTrip(v: Bytestring, tail: Bytestring)
    requires |v| < TWO_64
    ensures ConsumeBytes(Varint(|v|) + v + tail) == Got(v, |Varint(|v|)| + |v|)
  {
    var b := Varint(|v|) + v + tail;
    assert b == Varint(|v|) + (v + tail);
    VarintRoundTrip(|v|, v + tail);
    assert b[|Varint(|v|)|..|Varint(|v|)| + |v|] == v;
  }
}
