/**
 The names of log files: what a name is made of, that reading it back gives the
 file's range, and that names sort as the revisions they name do.
 */
module FileNames {
  import opened Bytes
  import opened Records
  import opened LogFiles

  const DASH: byte := 45
  const DOT: byte := 46
  const LOG_SUFFIX: Key := [46, 108, 111, 103]   // ".log"
  const TMP_SUFFIX: Key := [46, 116, 109, 112]   // ".tmp"

  function Digit(d: nat): byte
    requires d < 16
  {
    if d < 10 then 48 + d as byte else 87 + d as byte
  }

  /** The value of a hexadecimal digit, in either case. */
  function DigitValue(c: byte): Option<nat> {
    if 48 <= c <= 57 then Some(c as nat - 48)
    else if 97 <= c <= 102 then Some(c as nat - 87)
    else if 65 <= c <= 70 then Some(c as nat - 55)
    else None
  }

  /** The low `k` hexadecimal digits of a number, zero-padded. */
  function Hex(n: nat, k: nat): (s: Key)
    ensures |s| == k
    ensures DASH !in s
  {
    if k == 0 then [] else Hex(n / 16, k - 1) + [Digit(n % 16)]
  }

  function HexValue(s: Key): Option<nat> {
    if s == [] then Some(0)
    else
      var high := HexValue(s[..|s| - 1]);
      var low := DigitValue(s[|s| - 1]);
      if high.None? || low.None? then None else Some(16 * high.value + low.value)
  }

  /** A 64-bit number in hexadecimal. */
  function ParseUint(s: Key): Option<nat> {
    var v := HexValue(s);
    if s == [] || v.None? || v.value >= 0x1_0000_0000_0000_0000 then None else v
  }

  function Filename(n: Name): Key {
    match n
    case Dense(first) => Hex(first, 16) + LOG_SUFFIX
    case Sparse(first, last) => Hex(first, 16) + [DASH] + Hex(last, 16) + LOG_SUFFIX
    case Other(text) => text
  }

  /** What a directory entry's name says. */
  function ParseFilename(text: Key): Name {
    var n := |text| - |LOG_SUFFIX|;
    if n < 0 || text[n..] != LOG_SUFFIX then Other(text)
    else
      var base := text[..n];
      var dash := FirstDash(base);
      var first := ParseUint(base[..dash]);
      if first.None? then Other(text)
      else if dash == |base| then Dense(first.value)
      else
        var last := ParseUint(base[dash + 1..]);
        if last.None? || last.value < first.value then Other(text) else Sparse(first.value, last.value)
  }

  function FirstDash(s: Key): (i: nat)
    ensures i <= |s| && DASH !in s[..i] && (i < |s| ==> s[i] == DASH)
  {
    if s == [] || s[0] == DASH then 0 else 1 + FirstDash(s[1..])
  }

  function Power16(k: nat): nat {
    if k == 0 then 1 else 16 * Power16(k - 1)
  }

  lemma {:induction false} HexRoundTrip(n: nat, k: nat)
    requires n < Power16(k)
    ensures HexValue(Hex(n, k)) == Some(n)
  {
    if k > 0 {
      HexRoundTrip(n / 16, k - 1);
      var s := Hex(n, k);
      assert s[..|s| - 1] == Hex(n / 16, k - 1);
    }
  }

  lemma Sixteen()
    ensures Power16(16) == 0x1_0000_0000_0000_0000
  {
    assert Power16(4) == 65536;
    assert Power16(8) == 65536 * 65536;
    assert Power16(12) == 65536 * 65536 * 65536;
  }

  lemma UintRoundTrip(n: nat)
    requires n < 0x1_0000_0000_0000_0000
    ensures ParseUint(Hex(n, 16)) == Some(n)
  {
    hide Hex, HexValue, Power16;
    Sixteen();
    HexRoundTrip(n, 16);
  }

  ghost predicate NameOk(n: Name) {
    match n
    case Dense(first) => first < 0x1_0000_0000_0000_0000
    case Sparse(first, last) => first <= last < 0x1_0000_0000_0000_0000
    case Other(_) => false
  }

  lemma {:induction false} DashFound(a: Key, rest: Key)
    requires DASH !in a && (rest == [] || rest[0] == DASH)
    ensures FirstDash(a + rest) == |a|
  {
    if a == [] {
      assert a + rest == rest;
    } else {
      assert (a + rest)[1..] == a[1..] + rest;
      DashFound(a[1..], rest);
    }
  }

  /** A log file's name says which revisions it covers and whether it is sparse. */
  lemma NameRoundTrip(n: Name)
    requires NameOk(n)
    ensures ParseFilename(Filename(n)) == n
  {
    hide Hex, HexValue, ParseUint, FirstDash;
    UintRoundTrip(n.first);
    var rest: Key := if n.Dense? then [] else [DASH] + Hex(n.last, 16);
    var base := Hex(n.first, 16) + rest;
    var text := Filename(n);
    assert text == base + LOG_SUFFIX;
    assert text[..|text| - |LOG_SUFFIX|] == base && text[|text| - |LOG_SUFFIX|..] == LOG_SUFFIX;
    DashFound(Hex(n.first, 16), rest);
    assert base[..16] == Hex(n.first, 16);
    if n.Sparse? {
      UintRoundTrip(n.last);
      assert base[17..] == Hex(n.last, 16);
    }
  }

  /** The temporary file a rewrite is written to is not taken for a log file. */
  lemma TemporaryIsOther(n: Name)
    ensures ParseFilename(Filename(n) + TMP_SUFFIX) == Other(Filename(n) + TMP_SUFFIX)
  {
    hide Hex, Filename;
    var text := Filename(n) + TMP_SUFFIX;
    assert text[|text| - 4..] == TMP_SUFFIX;
    assert TMP_SUFFIX[1] != LOG_SUFFIX[1];
  }

  /** Zero-padded numbers sort as numbers, whatever follows them. */
  lemma {:induction false} HexSorts(a: nat, b: nat, k: nat, x: Key, y: Key)
    requires a < b < Power16(k)
    ensures Less(Hex(a, k) + x, Hex(b, k) + y)
  {
    if k > 0 {
      var p, q := Hex(a / 16, k - 1), Hex(b / 16, k - 1);
      var c, d := [Digit(a % 16)], [Digit(b % 16)];
      assert p + c + x == p + (c + x) && q + d + y == q + (d + y);
      if a / 16 < b / 16 {
        HexSorts(a / 16, b / 16, k - 1, c + x, d + y);
      } else {
        LessByDivergence(p, c + x, d + y);
      }
    }
  }

  /** So the names of log files sort by the revisions they start at, a sparse one before a dense one. */
  lemma NamesSort(a: Name, b: Name)
    requires NameOk(a) && NameOk(b)
    requires a.first < b.first || (a.first == b.first && a.Sparse? && b.Dense?)
    ensures Less(Filename(a), Filename(b))
  {
    hide Hex, Power16;
    Sixteen();
    var x := Tail(a);
    var y := Tail(b);
    if a.first < b.first {
      HexSorts(a.first, b.first, 16, x, y);
    } else {
      LessByDivergence(Hex(a.first, 16), x, y);
    }
  }

  function Tail(n: Name): (t: Key)
    requires IsLogFile(n)
    ensures Filename(n) == Hex(n.first, 16) + t
    ensures |t| > 0 && t[0] == if n.Sparse? then DASH else DOT
  {
    hide Hex;
    if n.Dense? then LOG_SUFFIX else
      assert Hex(n.first, 16) + ([DASH] + Hex(n.last, 16) + LOG_SUFFIX) == Filename(n);
      [DASH] + Hex(n.last, 16) + LOG_SUFFIX
  }
}
