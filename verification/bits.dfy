/** Address keys as fixed-width bit strings, most significant bit first.
    The route table keeps keys as big integers of the family's width; `Xor`, `BitLen`
    and `Mask` are the big-integer operations it applies to them. */
module Bits {

  type Key = seq<bool>

  /** The two keys have the same first `n` bits. */
  ghost predicate Agree(a: Key, b: Key, n: nat) {
    n <= |a| && n <= |b| && forall i :: 0 <= i < n ==> a[i] == b[i]
  }

  /** No bit is set at or beyond position `n`. */
  ghost predicate Masked(k: Key, n: nat) {
    n <= |k| && forall i :: n <= i < |k| ==> !k[i]
  }

  function Mask(k: Key, n: nat): (m: Key)
    requires n <= |k|
    ensures |m| == |k| && Agree(m, k, n) && Masked(m, n)
  {
    k[..n] + seq(|k| - n, _ => false)
  }

  function Xor(a: Key, b: Key): (x: Key)
    requires |a| == |b|
    ensures |x| == |a| && forall i :: 0 <= i < |a| ==> x[i] == (a[i] != b[i])
  {
    seq(|a|, i requires 0 <= i < |a| => a[i] != b[i])
  }

  /** The number of bits left after the leading zeros. */
  function BitLen(x: Key): (n: nat)
    ensures n <= |x|
    ensures forall i :: 0 <= i < |x| - n ==> !x[i]
    ensures 0 < n ==> x[|x| - n]
  {
    if x == [] then 0 else if x[0] then |x| else BitLen(x[1..])
  }

  /** The number of equal leading bits of two keys of the same width. */
  function CommonBits(a: Key, b: Key): (n: nat)
    requires |a| == |b|
    ensures n <= |a| && Agree(a, b, n)
    ensures n < |a| ==> a[n] != b[n]
  {
    var x := Xor(a, b);
    if BitLen(x) == 0 then |a| else |a| - BitLen(x)
  }

  /** Masked keys that agree up to the mask are equal. */
  lemma MaskedEqual(a: Key, b: Key, n: nat)
    requires |a| == |b| && Masked(a, n) && Masked(b, n) && Agree(a, b, n)
    ensures a == b
  {
  }

  /** Clears the bits from position `n` on, one at a time, on a copy of the key. */
  method MaskPrefix(k: Key, n: nat) returns (out: Key)
    requires n <= |k|
    ensures out == Mask(k, n)
  {
    out := k;
    for pos := n to |k|
      invariant |out| == |k|
      invariant Agree(out, k, n)
      invariant forall i :: n <= i < pos ==> !out[i]
    {
      out := out[pos := false];
    }
    MaskedEqual(out, Mask(k, n), n);
  }
}
