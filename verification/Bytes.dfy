/** Byte strings: their lexicographic order and their reading as big-endian numbers. */
module Bytes {

  type Byte = b: int | 0 <= b < 256

  /** Lexicographic order; a proper prefix comes first. */
  predicate Less(a: seq<Byte>, b: seq<Byte>) {
    b != [] && (a == [] || a[0] < b[0] || (a[0] == b[0] && Less(a[1..], b[1..])))
  }

  /** Up to byte `k` the strings agree, and there `a` ends or has the smaller byte. */
  predicate SmallerAt(a: seq<Byte>, b: seq<Byte>, k: nat) {
    k <= |a| && k < |b| && a[..k] == b[..k] && (k == |a| || a[k] < b[k])
  }

  ghost predicate Precedes(a: seq<Byte>, b: seq<Byte>) {
    exists k: nat :: SmallerAt(a, b, k)
  }

  lemma {:induction false} LessIsLexicographic(a: seq<Byte>, b: seq<Byte>)
    ensures Less(a, b) <==> Precedes(a, b)
  {
    if b == [] {
    } else if a == [] || a[0] < b[0] {
      assert SmallerAt(a, b, 0);
    } else if a[0] == b[0] {
      LessIsLexicographic(a[1..], b[1..]);
      if k: nat :| SmallerAt(a[1..], b[1..], k) {
        assert a[..k + 1] == [a[0]] + a[1..][..k] && b[..k + 1] == [b[0]] + b[1..][..k];
        assert SmallerAt(a, b, k + 1);
      }
      if k: nat :| SmallerAt(a, b, k) {
        assert a[1..][..k - 1] == a[..k][1..] && b[1..][..k - 1] == b[..k][1..];
        assert SmallerAt(a[1..], b[1..], k - 1);
      }
    } else {
      SmallerFirstByte(a, b);
    }
  }

  lemma SmallerFirstByte(a: seq<Byte>, b: seq<Byte>)
    requires a != [] && b != [] && a[0] > b[0]
    ensures forall k: nat :: !SmallerAt(a, b, k)
  {
    forall k: nat
      ensures !SmallerAt(a, b, k)
    {
      if 0 < k <= |a| && k < |b| {
        assert a[..k][0] == a[0] && b[..k][0] == b[0];
      }
    }
  }

  lemma {:induction false} LessIsIrreflexive(a: seq<Byte>)
    ensures !Less(a, a)
  {
    if a != [] {
      LessIsIrreflexive(a[1..]);
    }
  }

  lemma {:induction false} LessIsTransitive(a: seq<Byte>, b: seq<Byte>, c: seq<Byte>)
    requires Less(a, b) && Less(b, c)
    ensures Less(a, c)
  {
    if a != [] && a[0] == b[0] && b[0] == c[0] {
      LessIsTransitive(a[1..], b[1..], c[1..]);
    }
  }

  lemma {:induction false} LessIsTotal(a: seq<Byte>, b: seq<Byte>)
    ensures Less(a, b) || a == b || Less(b, a)
  {
    if a != [] && b != [] && a[0] == b[0] {
      LessIsTotal(a[1..], b[1..]);
      assert a == [a[0]] + a[1..] && b == [b[0]] + b[1..];
    }
  }

  /** Between strings of one length the order is settled before any tail is read. */
  lemma {:induction false} LessBeforeTails(a: seq<Byte>, b: seq<Byte>, s: seq<Byte>, t: seq<Byte>)
    requires |a| == |b| && Less(a, b)
    ensures Less(a + s, b + t)
  {
    assert (a + s)[0] == a[0] && (b + t)[0] == b[0];
    if a[0] == b[0] {
      LessBeforeTails(a[1..], b[1..], s, t);
      assert (a + s)[1..] == a[1..] + s && (b + t)[1..] == b[1..] + t;
    }
  }

  /** The number whose big-endian bytes are `s`. */
  function Value(s: seq<Byte>): nat {
    if s == [] then 0 else 256 * Value(s[..|s| - 1]) + s[|s| - 1]
  }

  lemma {:induction false} LessOnLastByte(a: seq<Byte>, b: seq<Byte>)
    requires |a| == |b| != 0
    ensures Less(a, b) <==>
            Less(a[..|a| - 1], b[..|b| - 1]) || (a[..|a| - 1] == b[..|b| - 1] && a[|a| - 1] < b[|b| - 1])
  {
    var n := |a| - 1;
    if n == 0 {
      assert a[..n] == [] && b[..n] == [];
    } else {
      LessOnLastByte(a[1..], b[1..]);
      assert a[..n] == [a[0]] + a[1..n] && b[..n] == [b[0]] + b[1..n];
      assert a[1..][..n - 1] == a[1..n] && b[1..][..n - 1] == b[1..n];
      assert a[1..][n - 1] == a[n] && b[1..][n - 1] == b[n];
    }
  }

  /** Byte order and number order agree on strings of one length. */
  lemma {:induction false} LessIsValueOrder(a: seq<Byte>, b: seq<Byte>)
    requires |a| == |b|
    ensures Less(a, b) <==> Value(a) < Value(b)
    ensures a == b <==> Value(a) == Value(b)
  {
    if a != [] {
      var n := |a| - 1;
      LessIsValueOrder(a[..n], b[..n]);
      LessOnLastByte(a, b);
      assert a == a[..n] + [a[n]] && b == b[..n] + [b[n]];
    }
  }

  function Pow256(n: nat): nat {
    if n == 0 then 1 else 256 * Pow256(n - 1)
  }

  /** The `n` low big-endian bytes of `v`. */
  function BigEndian(v: nat, n: nat): (s: seq<Byte>)
    ensures |s| == n
  {
    if n == 0 then [] else BigEndian(v / 256, n - 1) + [v % 256]
  }

  lemma {:induction false} ValueOfBigEndian(v: nat, n: nat)
    requires v < Pow256(n)
    ensures Value(BigEndian(v, n)) == v
  {
    if n != 0 {
      ValueOfBigEndian(v / 256, n - 1);
      var s := BigEndian(v, n);
      assert s[..n - 1] == BigEndian(v / 256, n - 1) && s[n - 1] == v % 256;
    }
  }

  lemma {:induction false} ValueOfConcat(a: seq<Byte>, b: seq<Byte>)
    ensures Value(a + b) == Value(a) * Pow256(|b|) + Value(b)
  {
    if b == [] {
      assert a + b == a;
    } else {
      var n := |b| - 1;
      ValueOfConcat(a, b[..n]);
      assert (a + b)[..|a| + n] == a + b[..n];
      assert Value(a + b) == 256 * (Value(a) * Pow256(n) + Value(b[..n])) + b[n];
      assert Value(a) * Pow256(|b|) == 256 * (Value(a) * Pow256(n));
    }
  }

  lemma {:induction false} ValueBound(s: seq<Byte>)
    ensures Value(s) < Pow256(|s|)
  {
    if s != [] {
      ValueBound(s[..|s| - 1]);
    }
  }
}
