/**
 Byte strings: the keys of the store, ordered as `bytes.Compare` orders them.
 */
module Bytes {

  newtype byte = x: int | 0 <= x < 256

  type Key = seq<byte>

  /** Whether `a` sorts strictly before `b` (`bytes.Compare(a, b) < 0`). */
  predicate Less(a: Key, b: Key) {
    |b| > 0 && (|a| == 0 || a[0] < b[0] || (a[0] == b[0] && Less(a[1..], b[1..])))
  }

  predicate AtMost(a: Key, b: Key) {
    a == b || Less(a, b)
  }

  predicate HasPrefix(k: Key, p: Key) {
    |p| <= |k| && k[..|p|] == p
  }

  lemma LessIrreflexive(a: Key)
    ensures !Less(a, a)
  {
  }

  lemma LessTransitive(a: Key, b: Key, c: Key)
    requires Less(a, b) && Less(b, c)
    ensures Less(a, c)
  {
    if |a| > 0 && a[0] == b[0] && b[0] == c[0] {
      LessTransitive(a[1..], b[1..], c[1..]);
    }
  }

  lemma LessTotal(a: Key, b: Key)
    ensures a == b || Less(a, b) || Less(b, a)
  {
    if |a| > 0 && |b| > 0 && a[0] == b[0] {
      LessTotal(a[1..], b[1..]);
      if a[1..] == b[1..] {
        assert a == [a[0]] + a[1..] && b == [b[0]] + b[1..];
      }
    }
  }

  lemma LessAsymmetric(a: Key, b: Key)
    requires Less(a, b)
    ensures a != b && !Less(b, a)
  {
    LessIrreflexive(a);
    if Less(b, a) {
      LessTransitive(a, b, a);
    }
  }

  /** A common prefix does not matter to the order. */
  lemma {:induction false} LessCancel(p: Key, a: Key, b: Key)
    ensures Less(p + a, p + b) <==> Less(a, b)
  {
    if p == [] {
      assert p + a == a && p + b == b;
    } else {
      assert (p + a)[1..] == p[1..] + a && (p + b)[1..] == p[1..] + b;
      LessCancel(p[1..], a, b);
    }
  }

  /** Keys that part at a byte are ordered by that byte, whatever follows. */
  lemma LessByDivergence(p: Key, a: Key, b: Key)
    requires |a| > 0 && |b| > 0 && a[0] < b[0]
    ensures Less(p + a, p + b)
  {
    LessCancel(p, a, b);
  }

  /** A proper prefix of a key sorts before it. */
  lemma LessByExtension(p: Key, a: Key)
    requires |a| > 0
    ensures Less(p, p + a)
  {
    assert p + [] == p;
    LessCancel(p, [], a);
  }

  /** `k + "\x00"` is the least key above `k`: nothing fits between them. */
  lemma {:induction false} SuccessorIsNext(k: Key, x: Key)
    ensures Less(k, x) <==> AtMost(k + [0], x)
  {
    if k == [] {
      assert k + [0] == [0];
      if |x| > 0 && x[0] == 0 {
        assert [0 as byte][1..] == [];
        assert x == [0] + x[1..];
        assert Less([], x[1..]) <==> |x| > 1;
      }
    } else {
      assert (k + [0])[1..] == k[1..] + [0];
      if |x| > 0 {
        SuccessorIsNext(k[1..], x[1..]);
        assert x == [x[0]] + x[1..] && k + [0] == [k[0]] + (k[1..] + [0]);
      }
    }
  }
}
