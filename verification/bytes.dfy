/** Bytes, big-endian numbers and bitwise exclusive or. */
module Bytes {

  type byte = b: int | 0 <= b < 256
  type bytes = seq<byte>

  function Power(base: nat, n: nat): nat {
    if n == 0 then 1 else base * Power(base, n - 1)
  }

  function Zeros(n: nat): bytes {
    seq(n, _ => 0)
  }

  function U16(v: nat): (s: bytes)
    requires v < 0x1_0000
    ensures |s| == 2
  {
    [v / 256, v % 256]
  }

  /** The 16-bit number at offset `i`. */
  function U16At(s: bytes, i: nat): nat
    requires i + 2 <= |s|
  {
    (s[i] as nat) * 256 + s[i + 1] as nat
  }

  /** The `n` bytes of `v`, most significant first. */
  function BigEndian(v: nat, n: nat): (s: bytes)
    ensures |s| == n
  {
    if n == 0 then [] else BigEndian(v / 256, n - 1) + [v % 256]
  }

  function FromBigEndian(s: bytes): nat {
    if s == [] then 0 else FromBigEndian(s[..|s| - 1]) * 256 + s[|s| - 1]
  }

  lemma {:induction false} BigEndianRoundTrip(v: nat, n: nat)
    requires v < Power(256, n)
    ensures FromBigEndian(BigEndian(v, n)) == v
  {
    if n > 0 {
      BigEndianRoundTrip(v / 256, n - 1);
      assert BigEndian(v, n)[..n - 1] == BigEndian(v / 256, n - 1);
    }
  }

  lemma {:induction false} FromBigEndianBound(s: bytes)
    ensures FromBigEndian(s) < Power(256, |s|)
  {
    if s != [] {
      FromBigEndianBound(s[..|s| - 1]);
    }
  }

  lemma {:induction false} BigEndianInverse(s: bytes)
    ensures BigEndian(FromBigEndian(s), |s|) == s
  {
    if s != [] {
      BigEndianInverse(s[..|s| - 1]);
    }
  }

  /** Exclusive or of the low `n` bits. */
  function XorBits(a: nat, b: nat, n: nat): (x: nat)
    ensures x < Power(2, n)
  {
    if n == 0 then 0
    else 2 * XorBits(a / 2, b / 2, n - 1) + (if a % 2 == b % 2 then 0 else 1)
  }

  /** Bit `i` of a number is one: after `i` halvings it is odd. */
  predicate Bit(a: nat, i: nat) {
    if i == 0 then a % 2 == 1 else Bit(a / 2, i - 1)
  }

  /** A bit of the exclusive or is one exactly when the two bits differ. */
  lemma {:induction false} XorBitsAt(a: nat, b: nat, n: nat, i: nat)
    requires i < n
    ensures Bit(XorBits(a, b, n), i) <==> Bit(a, i) != Bit(b, i)
  {
    assert XorBits(a, b, n) / 2 == XorBits(a / 2, b / 2, n - 1);
    if i > 0 {
      XorBitsAt(a / 2, b / 2, n - 1, i - 1);
    }
  }

  /** A number is made of its bits. */
  lemma {:induction false} SameBits(a: nat, b: nat, n: nat)
    requires a < Power(2, n) && b < Power(2, n) && forall k: nat :: k < n ==> Bit(a, k) == Bit(b, k)
    ensures a == b
  {
    if n > 0 {
      assert Bit(a, 0) == Bit(b, 0);
      forall k: nat | k < n - 1
        ensures Bit(a / 2, k) == Bit(b / 2, k)
      {
        assert Bit(a, k + 1) == Bit(b, k + 1);
      }
      SameBits(a / 2, b / 2, n - 1);
    }
  }

  lemma {:induction false} XorTwice(a: nat, b: nat, n: nat)
    requires a < Power(2, n)
    ensures XorBits(XorBits(a, b, n), b, n) == a
  {
    if n > 0 {
      XorTwice(a / 2, b / 2, n - 1);
    }
  }

  function Xor8(a: byte, b: byte): (x: byte) {
    assert Power(2, 8) == 256;
    XorBits(a, b, 8)
  }

  /** Byte by byte, `r` is the exclusive or of `s` and `mask`. */
  ghost predicate IsXor(s: bytes, mask: bytes, r: bytes) {
    && |r| == |s| <= |mask|
    && forall i, k: nat :: 0 <= i < |s| && k < 8 ==> (Bit(r[i], k) <==> Bit(s[i], k) != Bit(mask[i], k))
  }

  lemma Xor8Twice(a: byte, b: byte)
    ensures Xor8(Xor8(a, b), b) == a
  {
    assert Power(2, 8) == 256;
    XorTwice(a, b, 8);
  }

  /** There is only one such `r`. */
  lemma XorIsUnique(s: bytes, mask: bytes, r: bytes, r': bytes)
    requires IsXor(s, mask, r) && IsXor(s, mask, r')
    ensures r == r'
  {
    hide Bit;
    assert Power(2, 8) == 256;
    forall i | 0 <= i < |s|
      ensures r[i] == r'[i]
    {
      SameBits(r[i], r'[i], 8);
    }
  }

  /** The encodings of a list, one after the other. */
  function FlatMap<T>(f: T -> bytes, xs: seq<T>): bytes {
    if xs == [] then [] else f(xs[0]) + FlatMap(f, xs[1..])
  }

  lemma FlatMapCons<T>(f: T -> bytes, x: T, xs: seq<T>)
    ensures FlatMap(f, [x] + xs) == f(x) + FlatMap(f, xs)
  {
    assert ([x] + xs)[1..] == xs;
  }

  lemma {:induction false} FlatMapAppend<T>(f: T -> bytes, xs: seq<T>, ys: seq<T>)
    ensures FlatMap(f, xs + ys) == FlatMap(f, xs) + FlatMap(f, ys)
  {
    if xs == [] {
      assert xs + ys == ys;
    } else {
      hide FlatMap;
      var x, rest := xs[0], xs[1..];
      assert xs == [x] + rest && xs + ys == [x] + (rest + ys);
      FlatMapCons(f, x, rest);
      FlatMapCons(f, x, rest + ys);
      FlatMapAppend(f, rest, ys);
    }
  }

  lemma FlatMapSnoc<T>(f: T -> bytes, xs: seq<T>, x: T)
    ensures FlatMap(f, xs + [x]) == FlatMap(f, xs) + f(x)
  {
    FlatMapAppend(f, xs, [x]);
    assert FlatMap(f, [x]) == f(x) + FlatMap(f, []);
  }

  lemma FlatMapSplit<T>(f: T -> bytes, xs: seq<T>, x: T, ys: seq<T>)
    ensures FlatMap(f, xs + [x] + ys) == FlatMap(f, xs) + (f(x) + FlatMap(f, ys))
  {
    FlatMapAppend(f, xs + [x], ys);
    FlatMapSnoc(f, xs, x);
  }

  /** Blocks of whole 32-bit words add up to whole words. */
  lemma {:induction false} FlatMapAligned<T>(f: T -> bytes, xs: seq<T>)
    requires forall i :: 0 <= i < |xs| ==> |f(xs[i])| % 4 == 0
    ensures |FlatMap(f, xs)| % 4 == 0
  {
    if xs != [] {
      assert forall i :: 0 <= i < |xs[1..]| ==> xs[1..][i] == xs[i + 1];
      FlatMapAligned(f, xs[1..]);
      assert |FlatMap(f, xs)| == |f(xs[0])| + |FlatMap(f, xs[1..])|;
    }
  }

  lemma SnocCons<T>(xs: seq<T>, ys: seq<T>)
    requires ys != []
    ensures (xs + [ys[0]]) + ys[1..] == xs + ys
  {
  }
}
