/** UTF-8 text as bytes (table 3-7 of the Unicode Standard): characters and their boundaries. */
module Utf8 {
  import opened Bytes

  predicate Continuation(b: Byte) {
    0x80 <= b < 0xC0
  }

  /** Bytes of the character a lead byte opens; 0 when it opens none. */
  function Width(b: Byte): nat {
    if b < 0x80 then 1
    else if 0xC2 <= b <= 0xDF then 2
    else if 0xE0 <= b <= 0xEF then 3
    else if 0xF0 <= b <= 0xF4 then 4
    else 0
  }

  predicate SecondByteFits(lead: Byte, second: Byte) {
    && (lead == 0xE0 ==> 0xA0 <= second)
    && (lead == 0xED ==> second <= 0x9F)
    && (lead == 0xF0 ==> 0x90 <= second)
    && (lead == 0xF4 ==> second <= 0x8F)
  }

  predicate StartsWithCharacter(s: seq<Byte>) {
    && s != []
    && 1 <= Width(s[0]) <= |s|
    && (forall i :: 1 <= i < Width(s[0]) ==> Continuation(s[i]))
    && (Width(s[0]) >= 2 ==> SecondByteFits(s[0], s[1]))
  }

  predicate Text(s: seq<Byte>)
    decreases |s|
  {
    s == [] || (StartsWithCharacter(s) && Text(s[Width(s[0])..]))
  }

  predicate Ascii(s: seq<Byte>) {
    forall i :: 0 <= i < |s| ==> s[i] < 0x80
  }

  predicate Boundary(s: seq<Byte>, k: nat)
    requires k <= |s|
  {
    k == 0 || k == |s| || !Continuation(s[k])
  }

  /** Characters of a text: each has one byte that continues nothing. */
  function Chars(s: seq<Byte>): nat {
    if s == [] then 0 else (if Continuation(s[0]) then 0 else 1) + Chars(s[1..])
  }

  /** Whether bytes start with a character is settled by that character's bytes. */
  lemma {:induction false} StartsAlike(s: seq<Byte>, t: seq<Byte>)
    requires StartsWithCharacter(s) && Width(s[0]) <= |t| && s[..Width(s[0])] == t[..Width(s[0])]
    ensures StartsWithCharacter(t) && t[0] == s[0]
  {
    var w := Width(s[0]);
    assert forall i :: 0 <= i < w ==> t[i] == t[..w][i] == s[..w][i] == s[i];
  }

  /** A code point other than a surrogate. */
  predicate Scalar(c: nat) {
    c < 0xD800 || 0xE000 <= c < 0x11_0000
  }

  /** Its UTF-8 bytes (section 3 of RFC 3629). */
  function Encoded(c: nat): seq<Byte>
    requires Scalar(c)
  {
    if c < 0x80 then [c]
    else if c < 0x800 then [0xC0 + c / 64, 0x80 + c % 64]
    else if c < 0x1_0000 then [0xE0 + c / 4096, 0x80 + c / 64 % 64, 0x80 + c % 64]
    else [0xF0 + c / 262144, 0x80 + c / 4096 % 64, 0x80 + c / 64 % 64, 0x80 + c % 64]
  }

  /** The bytes of a code point are one character, without a boundary inside. */
  lemma {:induction false} EncodedIsOneCharacter(c: nat)
    requires Scalar(c)
    ensures StartsWithCharacter(Encoded(c)) && Width(Encoded(c)[0]) == |Encoded(c)|
    ensures forall k :: 0 < k < |Encoded(c)| ==> !Boundary(Encoded(c), k)
  {
  }

  /** Every character of a text is the bytes of a code point. */
  lemma {:induction false} CharacterIsEncoded(s: seq<Byte>) returns (c: nat)
    requires StartsWithCharacter(s)
    ensures Scalar(c) && s[..Width(s[0])] == Encoded(c)
  {
    var w := Width(s[0]);
    if w == 1 {
      c := s[0];
    } else if w == 2 {
      c := FromTwo(s[0], s[1]);
    } else if w == 3 {
      c := FromThree(s[0], s[1], s[2]);
    } else {
      c := FromFour(s[0], s[1], s[2], s[3]);
    }
  }

  lemma {:induction false} FromTwo(a: Byte, b: Byte) returns (c: nat)
    requires Width(a) == 2 && Continuation(b)
    ensures Scalar(c) && Encoded(c) == [a, b]
  {
    c := 64 * (a - 0xC0) + (b - 0x80);
    assert c / 64 == a - 0xC0 && c % 64 == b - 0x80;
  }

  lemma {:induction false} FromThree(a: Byte, b: Byte, d: Byte) returns (c: nat)
    requires Width(a) == 3 && Continuation(b) && Continuation(d) && SecondByteFits(a, b)
    ensures Scalar(c) && Encoded(c) == [a, b, d]
  {
    var high := 64 * (a - 0xE0) + (b - 0x80);
    c := 64 * high + (d - 0x80);
    assert c / 64 == high && c % 64 == d - 0x80;
    assert c / 4096 == a - 0xE0 && high % 64 == b - 0x80;
  }

  lemma {:induction false} FromFour(a: Byte, b: Byte, d: Byte, e: Byte) returns (c: nat)
    requires Width(a) == 4 && Continuation(b) && Continuation(d) && Continuation(e) && SecondByteFits(a, b)
    ensures Scalar(c) && Encoded(c) == [a, b, d, e]
  {
    var top := 64 * (a - 0xF0) + (b - 0x80);
    var high := 64 * top + (d - 0x80);
    c := 64 * high + (e - 0x80);
    assert c / 64 == high && c % 64 == e - 0x80;
    assert c / 4096 == top && high % 64 == d - 0x80;
    assert c / 262144 == a - 0xF0 && top % 64 == b - 0x80;
  }

  lemma {:induction false} TextSplits(s: seq<Byte>, k: nat)
    requires Text(s) && k <= |s| && Boundary(s, k)
    ensures Text(s[..k]) && Text(s[k..])
    decreases |s|
  {
    if k == 0 {
      assert s[k..] == s;
    } else {
      var w := Width(s[0]);
      var rest := s[w..];
      BoundaryIsPast(s, k);
      TextSplits(rest, k - w);
      assert rest[k - w..] == s[k..];
      assert s[..k][w..] == rest[..k - w];
      assert s[..k][..w] == s[..w];
      StartsAlike(s, s[..k]);
    }
  }

  /** A boundary inside a text is past its first character, and a boundary of what follows. */
  lemma {:induction false} BoundaryIsPast(s: seq<Byte>, k: nat)
    requires StartsWithCharacter(s) && 0 < k <= |s| && Boundary(s, k)
    ensures Width(s[0]) <= k && Boundary(s[Width(s[0])..], k - Width(s[0]))
  {
    var w := Width(s[0]);
    if w < k < |s| {
      assert s[w..][k - w] == s[k];
    }
  }

  lemma {:induction false} TextConcat(s: seq<Byte>, t: seq<Byte>)
    requires Text(s) && Text(t)
    ensures Text(s + t)
    decreases |s|
  {
    if s == [] {
      assert s + t == t;
    } else {
      var w := Width(s[0]);
      TextConcat(s[w..], t);
      PartsOfConcat(s, t, w);
      StartsAlike(s, s + t);
    }
  }

  lemma {:induction false} PartsOfConcat(s: seq<Byte>, t: seq<Byte>, w: nat)
    requires w <= |s|
    ensures (s + t)[..w] == s[..w] && (s + t)[w..] == s[w..] + t
  {
  }

  lemma {:induction false} AsciiIsText(s: seq<Byte>)
    requires Ascii(s)
    ensures Text(s) && Chars(s) == |s|
  {
    if s != [] {
      AsciiIsText(s[1..]);
    }
  }

  /** No position is more than three bytes past a boundary. */
  lemma {:induction false} BoundaryWithinThree(s: seq<Byte>, k: nat) returns (d: nat)
    requires Text(s) && k <= |s|
    ensures d <= 3 && d <= k && Boundary(s, k - d)
    decreases |s|
  {
    if k == 0 {
      d := 0;
    } else {
      var w := Width(s[0]);
      if k < w {
        d := k;
      } else {
        var rest := s[w..];
        d := BoundaryWithinThree(rest, k - w);
        if k - w - d == 0 && k - d < |s| {
          assert rest != [] && rest[0] == s[w];
        } else if k - d < |s| {
          assert rest[k - w - d] == s[k - d];
        }
      }
    }
  }

  lemma {:induction false} CharsOfConcat(s: seq<Byte>, t: seq<Byte>)
    ensures Chars(s + t) == Chars(s) + Chars(t)
  {
    if s == [] {
      assert s + t == t;
    } else {
      CharsOfConcat(s[1..], t);
      assert (s + t)[1..] == s[1..] + t;
    }
  }

  lemma {:induction false} CharsAtMostBytes(s: seq<Byte>)
    ensures Chars(s) <= |s|
  {
    if s != [] {
      CharsAtMostBytes(s[1..]);
    }
  }

  lemma {:induction false} ContinuationsAreNoChars(s: seq<Byte>)
    requires forall i :: 0 <= i < |s| ==> Continuation(s[i])
    ensures Chars(s) == 0
  {
    if s != [] {
      ContinuationsAreNoChars(s[1..]);
    }
  }

  /** A run of continuation bytes lowers the character count by its length. */
  lemma {:induction false} CharsWithRun(s: seq<Byte>, from: nat, to: nat)
    requires from <= to <= |s|
    requires forall i :: from <= i < to ==> Continuation(s[i])
    ensures Chars(s) <= |s| - (to - from)
  {
    assert s == s[..from] + (s[from..to] + s[to..]);
    CharsOfConcat(s[..from], s[from..to] + s[to..]);
    CharsOfConcat(s[from..to], s[to..]);
    ContinuationsAreNoChars(s[from..to]);
    CharsAtMostBytes(s[..from]);
    CharsAtMostBytes(s[to..]);
  }
}
