/** IP packets on a byte stream: how a stream falls into packets, whatever the reads it arrives in. */
module Framing {
  import opened Bytes
  import opened Scan

  const BUFFER_SIZE := 0x1_0000

  function Version(b: bytes): nat
    requires 0 < |b|
  {
    b[0] / 16
  }

  /** The packet length its header announces. */
  function TotalLength(b: bytes): nat
    requires 20 <= |b|
  {
    if Version(b) == 4 then U16At(b, 2) else U16At(b, 4) + 40
  }

  /** A header that names a version and a length the receivers can go on with: on any other they
      fail, or never advance. */
  predicate GoodHead(b: bytes) {
    20 <= |b| && (Version(b) == 4 || Version(b) == 6) && 0 < TotalLength(b)
  }

  /** Take the packet at the front if it is complete, wait for more if it is not. */
  function PacketMove(b: bytes): Move<bytes> {
    if |b| < 20 then End
    else if !GoodHead(b) then Reject
    else if TotalLength(b) > |b| then End
    else Take(b[..TotalLength(b)], TotalLength(b))
  }

  /** The receivers cannot go on exactly when the version is neither 4 nor 6 or an IPv4 header announces
      nothing; and they take what the header announces as soon as it is there. */
  lemma MovesIff(b: bytes)
    ensures PacketMove(b).Reject? <==>
            20 <= |b| && b[0] / 16 != 6 && (b[0] / 16 != 4 || (b[2] == 0 && b[3] == 0))
    ensures 20 <= |b| && !PacketMove(b).Reject? ==>
              var announced: nat := if b[0] / 16 == 4 then 256 * b[2] as nat + b[3] as nat
                                    else 40 + 256 * b[4] as nat + b[5] as nat;
              PacketMove(b) == if announced <= |b| then Take(b[..announced], announced) else End
    ensures |b| < 20 ==> PacketMove(b).End?
  {
  }

  lemma PacketMoves(b: bytes)
    ensures var move := PacketMove(b);
            && (move.End? || move.Reject? || move.Take?) && (b == [] ==> move.End?)
            && (move.Take? ==> move.n <= |b| && move.item == b[..move.n])
  {
  }

  /** The complete packets at the front of the bytes, in order. */
  function Packets(b: bytes): seq<bytes> {
    Walk(PacketMove, b).items
  }

  /** What is left behind them. */
  function Rest(b: bytes): bytes {
    Walk(PacketMove, b).rest
  }

  /** The bytes left behind start with a header the receivers cannot go on with. */
  predicate Stuck(b: bytes) {
    Walk(PacketMove, b).outcome.Rejected?
  }

  lemma HeadOfPrefix(a: bytes, b: bytes)
    requires 20 <= |a|
    ensures GoodHead(a + b) == GoodHead(a) && TotalLength(a + b) == TotalLength(a) && Version(a + b) == Version(a)
  {
  }

  lemma MoveOfPrefix(a: bytes, b: bytes)
    requires PacketMove(a).Take?
    ensures PacketMove(a + b) == PacketMove(a) && a != []
    ensures var n := PacketMove(a).n; n <= |a| && (a + b)[n..] == a[n..] + b
  {
    HeadOfPrefix(a, b);
    var n := TotalLength(a);
    assert (a + b)[..n] == a[..n] && (a + b)[n..] == a[n..] + b;
  }

  /** Cutting a stream in two, taking the packets of the first part and carrying its rest over,
      gives what the whole gives. */
  lemma {:induction false} CarryOver(a: bytes, b: bytes)
    ensures Walk(PacketMove, a + b) == Prepend(Packets(a), Walk(PacketMove, Rest(a) + b))
    decreases |a|
  {
    if PacketMove(a).Take? {
      MoveOfPrefix(a, b);
      var n := PacketMove(a).n;
      CarryOver(a[n..], b);
      PrependTwice([PacketMove(a).item], Packets(a[n..]), Walk(PacketMove, Rest(a) + b));
    } else {
      PrependTwice([], [], Walk(PacketMove, a + b));
    }
  }

  function Concat(bs: seq<bytes>): bytes {
    if bs == [] then [] else bs[0] + Concat(bs[1..])
  }

  lemma ConcatCons(x: bytes, xs: seq<bytes>)
    ensures Concat([x] + xs) == x + Concat(xs)
  {
    assert ([x] + xs)[1..] == xs;
  }

  lemma {:induction false} ConcatAppend(xs: seq<bytes>, ys: seq<bytes>)
    ensures Concat(xs + ys) == Concat(xs) + Concat(ys)
  {
    if xs == [] {
      assert xs + ys == ys;
    } else {
      assert (xs + ys)[1..] == xs[1..] + ys;
      ConcatAppend(xs[1..], ys);
    }
  }

  /** A packet as the tunnel's ends produce them. */
  ghost predicate IsPacket(p: bytes) {
    0 < |p| && PacketMove(p) == Take(p, |p|)
  }

  /** A packet has at least 20 bytes, names version 4 or 6, and is as long as its header says: the
      total length of an IPv4 header, the payload length of an IPv6 header and its own 40 bytes. */
  lemma IsPacketIff(p: bytes)
    ensures IsPacket(p) <==>
            20 <= |p| && (|| (p[0] / 16 == 4 && |p| == 256 * p[2] as nat + p[3] as nat)
                          || (p[0] / 16 == 6 && |p| == 40 + 256 * p[4] as nat + p[5] as nat))
  {
    if 20 <= |p| {
      assert p[..|p|] == p;
    }
  }

  ghost predicate ArePackets(ps: seq<bytes>) {
    forall i :: 0 <= i < |ps| ==> IsPacket(ps[i])
  }

  /** Packets written one after the other are found again, and nothing else. */
  lemma {:induction false} PacketsOfConcat(ps: seq<bytes>)
    requires ArePackets(ps)
    ensures Walk(PacketMove, Concat(ps)) == Walked(ps, [], 0, Finished)
  {
    if ps != [] {
      var p, rest := ps[0], Concat(ps[1..]);
      MoveOfPrefix(p, rest);
      PacketsOfConcat(ps[1..]);
      assert p[|p|..] + rest == rest && ps == [p] + ps[1..];
    }
  }

  /** Conversely, the packets found and the rest are the whole stream. */
  lemma {:induction false} NothingLost(b: bytes)
    ensures b == Concat(Packets(b)) + Rest(b) && Walk(PacketMove, b).overshoot == 0
    ensures var move := PacketMove(Rest(b)); if Stuck(b) then move.Reject? else move.End?
    decreases |b|
  {
    hide PacketMove;
    PacketMoves(b);
    if PacketMove(b).Take? {
      var n := PacketMove(b).n;
      NothingLost(b[n..]);
      ConcatCons(b[..n], Packets(b[n..]));
      assert b == b[..n] + b[n..];
    }
  }
}
