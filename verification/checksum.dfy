/** Internet checksums (RFC 1071): the accumulate-and-fold routines against one's-complement sums. */
module Checksum {
  import opened Bytes

  const ONES := 0xFFFF

  // ----- One's-complement sums

  /** Addition with end-around carry. */
  function OnesAdd(x: nat, y: nat): nat {
    if x + y > ONES then x + y - ONES else x + y
  }

  /** The one's-complement sum of the 16-bit words, an odd last byte being padded with zero. */
  function OnesSum(b: bytes): nat {
    if |b| == 0 then 0
    else if |b| % 2 == 1 then OnesAdd(OnesSum(b[..|b| - 1]), 256 * b[|b| - 1] as nat)
    else OnesAdd(OnesSum(b[..|b| - 2]), U16At(b, |b| - 2))
  }

  /** What a byte at index `i` adds to a sum of 16-bit words. */
  function Weighed(i: nat, x: byte): nat {
    if i % 2 == 0 then 256 * x as nat else x as nat
  }

  /** The plain sum of the same words. */
  function WordSum(b: bytes): nat {
    if b == [] then 0 else WordSum(b[..|b| - 1]) + Weighed(|b| - 1, b[|b| - 1])
  }

  /** Two folds of a 32-bit sum into 16 bits, as the routines do them. */
  function Fold(s: nat): nat {
    var t := s / 0x1_0000 + s % 0x1_0000;
    (t + t / 0x1_0000) % 0x1_0000
  }

  /** The one's-complement value of a number: its remainder, with all ones for a positive multiple. */
  function Ones16(s: nat): nat {
    if s == 0 then 0 else (s - 1) % ONES + 1
  }

  lemma Ones16Is(s: nat, q: nat, r: nat)
    requires s == q * ONES + r && 1 <= r <= ONES
    ensures Ones16(s) == r
  {
    assert s - 1 == q * ONES + (r - 1);
  }

  lemma Ones16Split(s: nat) returns (q: nat)
    requires 0 < s
    ensures s == q * ONES + Ones16(s) && 1 <= Ones16(s) <= ONES
  {
    q := (s - 1) / ONES;
  }

  lemma Ones16Add(x: nat, y: nat)
    ensures Ones16(x + y) == OnesAdd(Ones16(x), Ones16(y))
  {
    if x > 0 && y > 0 {
      var p := Ones16Split(x);
      var q := Ones16Split(y);
      var r := Ones16(x) + Ones16(y);
      if r > ONES {
        Ones16Is(x + y, p + q + 1, r - ONES);
      } else {
        Ones16Is(x + y, p + q, r);
      }
    }
  }

  lemma Ones16Small(x: nat)
    requires x <= ONES
    ensures Ones16(x) == x
  {
  }

  lemma WordSumLast(b: bytes, i: nat)
    requires |b| == i + 1
    ensures WordSum(b) == WordSum(b[..i]) + Weighed(i, b[i])
  {
  }

  lemma WordSumWord(b: bytes, i: nat)
    requires |b| == i + 2 && i % 2 == 0
    ensures WordSum(b) == WordSum(b[..i]) + U16At(b, i)
  {
    hide WordSum;
    WordSumLast(b, i + 1);
    WordSumLast(b[..i + 1], i);
    assert b[..i + 1][..i] == b[..i];
  }

  /** Summing with end-around carries, and reducing the plain sum, give the same. */
  lemma {:induction false} OnesSumIs(b: bytes)
    ensures OnesSum(b) == Ones16(WordSum(b))
    decreases |b|
  {
    if |b| == 0 {
      assert WordSum(b) == 0;
    } else {
      hide WordSum, Ones16;
      var k := if |b| % 2 == 1 then |b| - 1 else |b| - 2;
      var w: nat := if |b| % 2 == 1 then 256 * b[k] as nat else U16At(b, k);
      if |b| % 2 == 0 {
        WordSumWord(b, k);
      } else {
        WordSumLast(b, k);
      }
      OnesSumIs(b[..k]);
      Ones16Add(WordSum(b[..k]), w);
      Ones16Small(w);
    }
  }

  lemma FoldBound(s: nat)
    ensures Fold(s) <= ONES
  {
  }

  /** Two folds reduce every 32-bit sum. */
  lemma FoldIs(s: nat)
    requires s < 0x1_0000_0000
    ensures Fold(s) == Ones16(s)
  {
    var hi, lo := s / 0x1_0000, s % 0x1_0000;
    if 0 < hi + lo {
      if hi + lo <= ONES {
        Ones16Is(s, hi, hi + lo);
      } else {
        Ones16Is(s, hi + 1, hi + lo - ONES);
      }
    }
  }

  /** A sum completed with the complement of its folded value comes to all ones; for UDP the
      complement zero is written as all ones. */
  lemma Completes(s: nat, c: nat)
    requires s < 0x1_0000_0000
    requires c == ONES - Fold(s) || (Fold(s) == ONES && c == ONES)
    ensures Ones16(s + c) == ONES
  {
    FoldIs(s);
    if s == 0 {
      Ones16Is(c, 0, ONES);
    } else {
      var q := Ones16Split(s);
      if c == ONES - Fold(s) {
        Ones16Is(s + c, q, ONES);
      } else {
        Ones16Is(s + c, q + 1, ONES);
      }
    }
  }

  // ----- Sums of bytes

  lemma WeighedShift(k: nat, i: nat, x: byte)
    requires k % 2 == 0
    ensures Weighed(k + i, x) == Weighed(i, x)
  {
  }

  lemma {:induction false} WordSumAppend(a: bytes, b: bytes)
    requires |a| % 2 == 0
    ensures WordSum(a + b) == WordSum(a) + WordSum(b)
  {
    if b == [] {
      assert a + b == a && WordSum(b) == 0;
    } else {
      hide WordSum, Weighed;
      var i := |b| - 1;
      WeighedShift(|a|, i, b[i]);
      assert (a + b)[..|a| + i] == a + b[..i];
      WordSumAppend(a, b[..i]);
      WordSumLast(a + b, |a| + i);
      WordSumLast(b, i);
    }
  }

  lemma {:induction false} WordSumBound(b: bytes)
    ensures WordSum(b) <= 0x8000 * (|b| + 1)
    decreases |b|
  {
    if |b| == 0 {
    } else if |b| == 1 {
      WordSumLast(b, 0);
    } else {
      hide WordSum;
      var i := |b| - 2;
      WordSumBound(b[..i]);
      WordSumLast(b, i + 1);
      WordSumLast(b[..i + 1], i);
      assert b[..i + 1][..i] == b[..i];
    }
  }

  /** Where two byte strings agree but for one word, the sums differ by that word. */
  lemma {:induction false} WordSumField(b: bytes, b': bytes, k: nat)
    requires |b| == |b'| && k % 2 == 0 && k + 2 <= |b| && b[k] == 0 && b[k + 1] == 0
    requires forall i :: 0 <= i < |b| && i != k && i != k + 1 ==> b'[i] == b[i]
    ensures WordSum(b') == WordSum(b) + U16At(b', k)
  {
    hide WordSum;
    if k + 2 < |b| {
      var n := |b| - 1;
      WordSumField(b[..n], b'[..n], k);
      WordSumLast(b, n);
      WordSumLast(b', n);
    } else {
      assert b[..k] == b'[..k];
      WordSumWord(b, k);
      WordSumWord(b', k);
    }
  }

  // ----- The routines

  type Sum = n: nat | n < 0x1_0000_0000

  lemma SumWord(b: bytes, i: nat, base: nat)
    requires i + 2 <= |b| < 0x1_0000 && i % 2 == 0 && base < 0x1000_0000
    ensures WordSum(b[..i + 2]) == WordSum(b[..i]) + 256 * b[i] as nat + b[i + 1] as nat
    ensures base + WordSum(b[..i + 2]) < 0x1_0000_0000
  {
    hide WordSum;
    WordSumWord(b[..i + 2], i);
    WordSumBound(b[..i + 2]);
    assert b[..i + 2][..i] == b[..i];
  }

  lemma SumByte(b: bytes, i: nat, base: nat)
    requires |b| == i + 1 < 0x1_0000 && i % 2 == 0 && base < 0x1000_0000
    ensures WordSum(b) == WordSum(b[..i]) + 256 * b[i] as nat
    ensures base + WordSum(b) < 0x1_0000_0000
  {
    hide WordSum;
    WordSumLast(b, i);
    WordSumBound(b);
  }

  /** The summing loop: words first, then an odd last byte unless it is left out. The 32-bit sum
      does not overflow. */
  method AddWords(p: array<byte>, start: nat, n: nat, base: Sum, odd: bool) returns (sum: Sum)
    requires start + n <= p.Length && n < 0x1_0000 && (n == 0 || base < 0x1000_0000)
    ensures sum == base + WordSum(p[start..start + (if odd then n else n - n % 2)])
  {
    sum := base;
    var i := 0;
    ghost var b := p[start..start + n];
    assert WordSum(b[..0]) == 0;
    hide WordSum;
    while i + 1 < n
      invariant 0 <= i <= n && i % 2 == 0
      invariant sum == base + WordSum(b[..i])
    {
      SumWord(b, i, base);
      sum := sum + 256 * p[start + i] as nat + p[start + i + 1] as nat;
      i := i + 2;
    }
    if odd && n % 2 == 1 {
      SumByte(b, i, base);
      sum := sum + 256 * p[start + n - 1] as nat;
    }
    assert p[start..start + n - n % 2] == b[..n - n % 2] && b == b[..n];
  }

  /** The bytes outside the field at `k` are as they were. */
  ghost predicate OnlyField(b: bytes, b': bytes, k: nat) {
    |b| == |b'| && forall i :: 0 <= i < |b| && i != k && i != k + 1 ==> b'[i] == b[i]
  }

  /** The field at `k` is a word of the `n` bytes from `start`. */
  predicate Covered(k: nat, start: nat, n: nat) {
    start <= k && (k - start) % 2 == 0 && k + 2 <= start + n
  }

  function Zeroed(b: bytes, k: nat): (r: bytes)
    requires k + 2 <= |b|
    ensures OnlyField(b, r, k) && r[k] == 0 && r[k + 1] == 0
  {
    b[k := 0][k + 1 := 0]
  }

  function Put(b: bytes, k: nat, c: nat): (r: bytes)
    requires k + 2 <= |b| && c <= ONES
    ensures OnlyField(b, r, k) && U16At(r, k) == c && r[k] == c / 256
  {
    b[k := c / 256][k + 1 := c % 256]
  }

  /** What is written for a sum: its complement, or all ones where zero is not to be written. */
  function Complement(sum: nat, avoidZero: bool): (c: nat)
    ensures c <= ONES && (avoidZero ==> c != 0)
  {
    var c := ONES - Fold(sum);
    if avoidZero && c == 0 then ONES else c
  }

  /** The bytes with the checksum of the `n` bytes from `start`, on top of `base`, put at `k`. */
  function Finished(b: bytes, k: nat, start: nat, n: nat, base: nat, avoidZero: bool): (r: bytes)
    requires start + n <= |b| && k + 2 <= |b|
    ensures OnlyField(b, r, k) && (avoidZero ==> U16At(r, k) != 0)
  {
    Put(b, k, Complement(base + WordSum(b[start..start + n]), avoidZero))
  }

  /** Sums, folds twice, and writes the complement. */
  method SetChecksum(p: array<byte>, k: nat, start: nat, n: nat, base: Sum, odd: bool, avoidZero: bool)
    requires start + n <= p.Length && k + 2 <= p.Length && n < 0x1_0000 && (n == 0 || base < 0x1000_0000)
    modifies p
    ensures p[..] == Finished(old(p[..]), k, start, if odd then n else n - n % 2, base, avoidZero)
  {
    hide WordSum, Fold;
    var sum := AddWords(p, start, n, base, odd);
    FoldBound(sum);
    var c := ONES - Fold(sum);
    if avoidZero && c == 0 {
      c := ONES;
    }
    ghost var m := if odd then n else n - n % 2;
    assert p[..][start..start + m] == p[start..start + m];
    p[k], p[k + 1] := c / 256, c % 256;
  }

  lemma {:induction false} WordSumAtLeast(b: bytes, i: nat)
    requires i < |b|
    ensures Weighed(i, b[i]) <= WordSum(b)
    decreases |b|
  {
    if i < |b| - 1 {
      WordSumAtLeast(b[..|b| - 1], i);
    }
  }

  /** Where anything at all was summed and zero may be written, all ones never is. */
  lemma FinishedNotOnes(b: bytes, k: nat, start: nat, n: nat, base: nat)
    requires start + n <= |b| && k + 2 <= |b| && n < 0x1_0000 && base < 0x1000_0000
    requires 0 < base + WordSum(b[start..start + n])
    ensures U16At(Finished(b, k, start, n, base, false), k) != ONES
  {
    hide WordSum, Fold, Ones16;
    WordSumBound(b[start..start + n]);
    FoldIs(base + WordSum(b[start..start + n]));
    var q := Ones16Split(base + WordSum(b[start..start + n]));
  }

  /** Written into a zero field that the sum covers, the checksum brings the sum to all ones. */
  lemma FinishedSums(b: bytes, k: nat, start: nat, n: nat, base: nat, avoidZero: bool)
    requires start + n <= |b| && Covered(k, start, n) && b[k] == 0 && b[k + 1] == 0
    requires n < 0x1_0000 && base < 0x1000_0000
    ensures Ones16(base + WordSum(Finished(b, k, start, n, base, avoidZero)[start..start + n])) == ONES
  {
    hide WordSum, Fold, Ones16;
    var seg, r := b[start..start + n], Finished(b, k, start, n, base, avoidZero);
    FoldBound(base + WordSum(seg));
    WordSumBound(seg);
    WordSumField(seg, r[start..start + n], k - start);
    Completes(base + WordSum(seg), U16At(r, k));
  }

  // ----- What a checksum depends on

  ghost predicate SameUpTo(b: bytes, b': bytes, t: nat) {
    |b| == |b'| && t <= |b| && forall i :: 0 <= i < t ==> b[i] == b'[i]
  }

  ghost predicate SameIn(b: bytes, b': bytes, from: nat, to: nat) {
    |b| == |b'| && to <= |b| && forall i :: from <= i < to ==> b[i] == b'[i]
  }

  /** The first `t` bytes of the result depend on the first `t` bytes and the bytes summed. */
  lemma FinishedSame(b: bytes, b': bytes, t: nat, k: nat, start: nat, n: nat, base: nat, avoidZero: bool)
    requires SameUpTo(b, b', t) && start + n <= |b| && k + 2 <= |b| && SameIn(b, b', start, start + n)
    ensures SameUpTo(Finished(b, k, start, n, base, avoidZero), Finished(b', k, start, n, base, avoidZero), t)
  {
    hide WordSum, Complement;
    assert b[start..start + n] == b'[start..start + n];
  }

  lemma {:induction false} WordSumByte(b: bytes, i: nat)
    requires i < |b| && b[i] == 0
    ensures WordSum(b[i := 1]) == WordSum(b) + Weighed(i, 1)
  {
    hide WordSum;
    var n := |b| - 1;
    WordSumLast(b, n);
    WordSumLast(b[i := 1], n);
    if i < n {
      WordSumByte(b[..n], i);
      assert b[i := 1][..n] == b[..n][i := 1];
    } else {
      assert b[i := 1][..n] == b[..n];
    }
  }

  /** A sum that is larger by one, or by 256, has another complement; by 256, also in the first byte. */
  lemma ComplementDiffers(s: nat, w: nat, avoidZero: bool)
    requires s + w < 0x1_0000_0000 && (w == 1 || w == 256)
    ensures var c, c' := Complement(s, avoidZero), Complement(s + w, avoidZero);
            c != c' && (w == 256 ==> c / 256 != c' / 256)
  {
    FoldIs(s);
    FoldIs(s + w);
    Ones16Add(s, w);
    Ones16Small(w);
    Ones16Range(s);
  }

  lemma Ones16Range(s: nat)
    ensures Ones16(s) <= ONES && (Ones16(s) == 0 <==> s == 0)
  {
  }

  /** Setting a byte that is summed changes the checksum. */
  lemma FinishedDiffers(b: bytes, i: nat, k: nat, start: nat, n: nat, base: nat, avoidZero: bool)
    requires start + n <= |b| && k + 2 <= |b| && start <= i < start + n && i != k && i != k + 1 && b[i] == 0
    requires n < 0x1_0000 && base < 0x1000_0000
    ensures var r, r' := Finished(b, k, start, n, base, avoidZero), Finished(b[i := 1], k, start, n, base, avoidZero);
            && U16At(r, k) != U16At(r', k)
            && ((i - start) % 2 == 0 ==> r[k] != r'[k])
  {
    hide WordSum, Complement;
    var seg := b[start..start + n];
    assert b[i := 1][start..start + n] == seg[i - start := 1];
    WordSumByte(seg, i - start);
    WordSumBound(seg[i - start := 1]);
    ComplementDiffers(base + WordSum(seg), Weighed(i - start, 1), avoidZero);
  }
}
