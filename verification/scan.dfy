/** The loop that the attribute decoder and the tunnel's receivers share: an offset moves through
    a byte buffer, one item at a time, as the bytes at the offset decide. */
module Scan {
  import opened Bytes

  type pos = n: nat | 0 < n witness 1

  /** What the bytes at hand call for: stop, pass over some, take an item, or give up. */
  datatype Move<T> = End | Skip(n: pos) | Take(item: T, n: pos) | Reject | RunOver

  datatype Outcome = Finished | Rejected | Overran

  /** The items taken, the bytes not dealt with, and how far the last step went past the end. */
  datatype Walked<T> = Walked(items: seq<T>, rest: bytes, overshoot: nat, outcome: Outcome)

  function Prepend<T>(items: seq<T>, w: Walked<T>): Walked<T> {
    w.(items := items + w.items)
  }

  function Walk<T>(move: bytes -> Move<T>, b: bytes): Walked<T>
    decreases |b|
  {
    if b == [] then Walked([], [], 0, Finished) else
    match move(b)
    case End => Walked([], b, 0, Finished)
    case Reject => Walked([], b, 0, Rejected)
    case RunOver => Walked([], b, 0, Overran)
    case Skip(n) =>
      if n <= |b| then Walk(move, b[n..]) else Walked([], [], n - |b|, Finished)
    case Take(x, n) =>
      if n <= |b| then Prepend([x], Walk(move, b[n..])) else Walked([x], [], n - |b|, Finished)
  }

  lemma WalkTakes<T>(move: bytes -> Move<T>, b: bytes, x: T, n: pos, tail: bytes)
    requires b != [] && move(b) == Take(x, n) && n <= |b| && b[n..] == tail
    ensures Walk(move, b) == Prepend([x], Walk(move, tail))
  {
  }

  lemma PrependTwice<T>(xs: seq<T>, ys: seq<T>, w: Walked<T>)
    ensures Prepend(xs, Prepend(ys, w)) == Prepend(xs + ys, w) && Prepend([], w) == w
  {
    assert xs + ys + w.items == xs + (ys + w.items);
    assert [] + w.items == w.items;
  }

  lemma Onward(b: bytes, k: nat, n: nat)
    requires k + n <= |b|
    ensures b[k..][n..] == b[k + n..]
  {
  }

  /** The loop: an offset into the buffer, and the items taken so far. */
  method WalkLoop<T>(move: bytes -> Move<T>, b: bytes) returns (items: seq<T>, offset: nat, outcome: Outcome)
    ensures var w := Walk(move, b);
            && items == w.items && outcome == w.outcome
            && offset == |b| - |w.rest| + w.overshoot
            && (offset <= |b| ==> b[offset..] == w.rest)
  {
    items, offset, outcome := [], 0, Finished;
    ghost var w := Walk(move, b);
    assert b[0..] == b && [] + w.items == w.items;
    while offset < |b|
      invariant outcome == Finished
      invariant offset <= |b| ==> w == Prepend(items, Walk(move, b[offset..]))
      invariant offset > |b| ==> w == Walked(items, [], offset - |b|, Finished)
      decreases |b| - offset
    {
      var front := b[offset..];
      match move(front)
      case End => break;
      case Reject => outcome := Rejected; break;
      case RunOver => outcome := Overran; break;
      case Skip(n) =>
        if n <= |front| { Onward(b, offset, n); } else { assert items + [] == items; }
        offset := offset + n;
      case Take(x, n) =>
        if n <= |front| { Onward(b, offset, n); PrependTwice(items, [x], Walk(move, b[offset + n..])); }
        items := items + [x];
        offset := offset + n;
    }
    assert items + [] == items;
  }
}
