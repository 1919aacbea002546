/** A packet is brought up to date in a pooled buffer that is longer than the packet and holds old
    bytes behind it. When does the packet that comes out depend on those? */
module StaleBytes {
  import opened Bytes
  import opened Checksum
  import opened Ipv6Headers
  import opened PacketChecksums

  function Max(x: nat, y: nat): nat {
    if x < y then y else x
  }

  /** The UDP length at `o` reaches behind the packet and not behind the buffer, and at least the
      first byte of the checksum is part of the packet. */
  predicate ReachesBehind(p: bytes, o: nat, size: nat) {
    o + 7 <= |p| && Max(|p|, o + 8) < o + U16At(p, o + 4) <= size
  }

  // ----- The UDP checksum

  function UdpPut(b: bytes, o: nat, n: nat, base: nat): bytes
    requires o + 8 <= |b| && o + n <= |b|
  {
    Finished(Zeroed(b, o + 6), o + 6, o, n, base, true)
  }

  lemma UdpSame(b: bytes, b': bytes, t: nat, o: nat, n: nat, base: nat)
    requires SameUpTo(b, b', t) && o + 8 <= |b| && o + n <= |b| && o + n <= Max(t, o + 8) && o + 7 <= t
    ensures SameUpTo(UdpPut(b, o, n, base), UdpPut(b', o, n, base), t)
  {
    hide Finished;
    FinishedSame(Zeroed(b, o + 6), Zeroed(b', o + 6), t, o + 6, o, n, base, true);
  }

  lemma UdpDiffers(b: bytes, t: nat, o: nat, n: nat, base: nat)
    requires o + 7 <= t && Max(t, o + 8) < o + n <= |b| && n < 0x1_0000 && base < 0x1000_0000
    requires b[Max(t, o + 8)] == 0
    ensures !SameUpTo(UdpPut(b, o, n, base), UdpPut(b[Max(t, o + 8) := 1], o, n, base), t)
  {
    hide Finished;
    var i := Max(t, o + 8);
    var z := Zeroed(b, o + 6);
    assert Zeroed(b[i := 1], o + 6) == z[i := 1];
    FinishedDiffers(z, i, o + 6, o, n, base, true);
    var r, r' := UdpPut(b, o, n, base), UdpPut(b[i := 1], o, n, base);
    assert r[o + 6] != r'[o + 6] || (o + 7 < t && r[o + 7] != r'[o + 7]);
  }

  // ----- IPv4

  /** A packet with its total length, and a buffer that it fits into, in which the routines do not
      run over the end. */
  predicate Placed4(p: bytes, size: nat) {
    && 20 <= |p| == Total(p) <= size && HeaderLength(p) <= size
    && (p[9] == TCP ==> HeaderLength(p) + 18 <= size)
    && (p[9] == ICMP ==> HeaderLength(p) + 4 <= size)
  }

  lemma PlacedRuns4(p: bytes, stale: bytes)
    requires 20 <= |p| == Total(p)
    ensures Placed4(p, |p + stale|) <==> Runs4(p + stale)
    ensures Total(p + stale) == Total(p) && HeaderLength(p + stale) == HeaderLength(p) && (p + stale)[9] == p[9]
  {
  }

  /** Whatever was in the buffer, the same packet comes out. */
  ghost predicate Alone4(p: bytes, size: nat)
    requires Placed4(p, size)
  {
    forall s: bytes, s': bytes :: |s| == |s'| == size - |p| ==> Comes4(p, s) == Comes4(p, s')
  }

  function Comes4(p: bytes, stale: bytes): bytes
    requires Placed4(p, |p| + |stale|)
  {
    PlacedRuns4(p, stale);
    Updated4(p + stale)[..|p|]
  }

  /** The header ends within the packet, and so does a UDP length, unless it leaves the buffer. */
  predicate SelfContained4(p: bytes, size: nat)
    requires 20 <= |p|
  {
    HeaderLength(p) <= |p| && !(p[9] == UDP && ReachesBehind(p, HeaderLength(p), size))
  }

  lemma HeaderSame4(b: bytes, b': bytes, t: nat)
    requires SameUpTo(b, b', t) && 20 <= t && HeaderLength(b) <= t
    ensures SameUpTo(Header4(b), Header4(b'), t)
  {
    hide Finished;
    FinishedSame(Zeroed(b, 10), Zeroed(b', 10), t, 10, 0, HeaderLength(b), 0, false);
  }

  lemma PseudoSame4(b: bytes, b': bytes, t: nat, k: nat, n: int)
    requires SameUpTo(b, b', t) && 20 <= t && k + 2 <= |b|
    ensures PseudoSum4(Zeroed(b, k), n) == PseudoSum4(Zeroed(b', k), n)
  {
  }

  lemma TcpSame4(b: bytes, b': bytes, t: nat)
    requires Runs4(b) && Runs4(b') && SameUpTo(b, b', t) && 20 <= t == Total(b)
    requires HeaderLength(b) <= t && b[9] == TCP
    ensures SameUpTo(Tcp4(b), Tcp4(b'), t)
  {
    hide Finished, PseudoSum4;
    var h := HeaderLength(b);
    PseudoSame4(b, b', t, h + 16, t - h);
    FinishedSame(Zeroed(b, h + 16), Zeroed(b', h + 16), t, h + 16, h, t - h, PseudoSum4(Zeroed(b, h + 16), t - h), false);
  }

  lemma IcmpSame4(b: bytes, b': bytes, t: nat)
    requires Runs4(b) && Runs4(b') && SameUpTo(b, b', t) && 20 <= t == Total(b)
    requires HeaderLength(b) <= t && b[9] == ICMP
    ensures SameUpTo(Icmp4(b), Icmp4(b'), t)
  {
    hide Finished;
    var h := HeaderLength(b);
    FinishedSame(Zeroed(b, h + 2), Zeroed(b', h + 2), t, h + 2, h, Even(t - h), 0, false);
  }

  lemma UdpSame4(b: bytes, b': bytes, t: nat)
    requires Runs4(b) && Runs4(b') && SameUpTo(b, b', t) && 20 <= t && b[9] == UDP
    requires !ReachesBehind(b[..t], HeaderLength(b), |b|)
    ensures SameUpTo(Udp4(b), Udp4(b'), t)
  {
    hide Finished, PseudoSum4;
    var h := HeaderLength(b);
    if h + 7 <= t && UdpFits(b, h) {
      var n := U16At(b, h + 4);
      assert U16At(b[..t], h + 4) == n == U16At(b', h + 4);
      PseudoSame4(b, b', t, h + 6, n);
      UdpSame(b, b', t, h, n, PseudoSum4(Zeroed(b, h + 6), n));
    }
  }

  lemma TransportSame4(b: bytes, b': bytes, t: nat)
    requires Runs4(b) && Runs4(b') && SameUpTo(b, b', t) && 20 <= t == Total(b)
    requires SelfContained4(b[..t], |b|)
    ensures SameUpTo(Transport4(b), Transport4(b'), t)
  {
    hide Tcp4, Udp4, Icmp4, ReachesBehind;
    assert HeaderLength(b[..t]) == HeaderLength(b);
    if b[9] == TCP {
      TcpSame4(b, b', t);
    } else if b[9] == ICMP {
      IcmpSame4(b, b', t);
    } else if b[9] == UDP {
      UdpSame4(b, b', t);
    }
  }

  lemma AloneWhen4(p: bytes, s: bytes, s': bytes)
    requires Placed4(p, |p| + |s|) && |s| == |s'| && SelfContained4(p, |p| + |s|)
    ensures Comes4(p, s) == Comes4(p, s')
  {
    hide Finished, Transport4, Header4;
    var b, b', t := p + s, p + s', |p|;
    PlacedRuns4(p, s);
    PlacedRuns4(p, s');
    HeaderSame4(b, b', t);
    KeepsContained(p, Header4(b)[..t], |b|);
    TransportSame4(Header4(b), Header4(b'), t);
  }

  lemma KeepsContained(p: bytes, q: bytes, size: nat)
    requires 20 <= |p| && OnlyField(p, q, 10) && SelfContained4(p, size)
    ensures SelfContained4(q, size)
  {
  }

  // ----- Bytes that show

  lemma HeaderBehind4(b: bytes, i: nat)
    requires 20 <= |b| && HeaderLength(b) <= |b| && HeaderLength(b) <= i < |b| && 20 <= i
    ensures Header4(b[i := 1]) == Header4(b)[i := 1]
  {
    var h := HeaderLength(b);
    assert Zeroed(b[i := 1], 10)[0..h] == Zeroed(b, 10)[0..h];
  }

  lemma LongHeaderShows(b: bytes, t: nat)
    requires Runs4(b) && 20 <= t == Total(b) < HeaderLength(b) && t < |b| && b[t] == 0
    ensures Runs4(b[t := 1]) && !SameUpTo(Updated4(b), Updated4(b[t := 1]), t)
  {
    hide Finished, Transport4;
    var b' := b[t := 1];
    var z := Zeroed(b, 10);
    assert Zeroed(b', 10) == z[t := 1];
    FinishedDiffers(z, t, 10, 0, HeaderLength(b), 0, false);
    var r, r' := Updated4(b), Updated4(b');
    assert U16At(r, 10) == U16At(Header4(b), 10) && U16At(r', 10) == U16At(Header4(b'), 10);
  }

  lemma SetBehind(b: bytes, i: nat, t: nat)
    requires t <= i < |b|
    ensures SameUpTo(b, b[i := 1], t)
  {
  }

  lemma UdpPut4(b: bytes, h: nat, n: nat)
    requires Runs4(b) && b[9] == UDP && h == HeaderLength(b) && UdpFits(b, h) && n == U16At(b, h + 4)
    ensures Udp4(b) == UdpPut(b, h, n, PseudoSum4(Zeroed(b, h + 6), n))
  {
  }

  lemma UdpShows4(b: bytes, t: nat, i: nat)
    requires Runs4(b) && 20 <= t <= |b| && b[9] == UDP && i == Max(t, HeaderLength(b) + 8)
    requires ReachesBehind(b[..t], HeaderLength(b), |b|) && b[i] == 0
    ensures Runs4(b[i := 1]) && !SameUpTo(Udp4(b), Udp4(b[i := 1]), t)
  {
    hide Udp4, UdpPut, PseudoSum4, SameUpTo;
    var h := HeaderLength(b);
    var n := U16At(b, h + 4);
    assert U16At(b[..t], h + 4) == n;
    var b' := b[i := 1];
    assert SameUpTo(b, b', 20) by {
      SetBehind(b, i, 20);
    }
    UdpPut4(b, h, n);
    UdpPut4(b', h, n);
    PseudoSame4(b, b', 20, h + 6, n);
    PseudoSum4Is(Zeroed(b, h + 6), n);
    UdpDiffers(b, t, h, n, PseudoSum4(Zeroed(b, h + 6), n));
  }

  lemma LongUdpShows(b: bytes, t: nat, i: nat)
    requires Runs4(b) && 20 <= t == Total(b) && HeaderLength(b) <= t <= |b| && b[9] == UDP
    requires i == Max(t, HeaderLength(b) + 8) && ReachesBehind(b[..t], HeaderLength(b), |b|) && b[i] == 0
    ensures Runs4(b[i := 1]) && !SameUpTo(Updated4(b), Updated4(b[i := 1]), t)
  {
    hide Header4, Udp4;
    var c := Header4(b);
    HeaderBehind4(b, i);
    KeepsReach(b[..t], c[..t], HeaderLength(b), |b|);
    UdpShows4(c, t, i);
  }

  lemma KeepsReach(p: bytes, q: bytes, o: nat, size: nat)
    requires OnlyField(p, q, 10) && o % 4 == 0
    ensures ReachesBehind(p, o, size) <==> ReachesBehind(q, o, size)
  {
  }

  lemma SlicesDiffer(b: bytes, b': bytes, t: nat)
    requires |b| == |b'| && t <= |b|
    ensures b[..t] == b'[..t] <==> SameUpTo(b, b', t)
  {
    if b[..t] == b'[..t] {
      forall i | 0 <= i < t
        ensures b[i] == b'[i]
      {
        assert b[..t][i] == b'[..t][i];
      }
    }
  }

  lemma ShowsWhen4(p: bytes, size: nat)
    requires Placed4(p, size) && !SelfContained4(p, size)
    ensures !Alone4(p, size)
  {
    hide Updated4;
    var s, t := Zeros(size - |p|), |p|;
    var b := p + s;
    PlacedRuns4(p, s);
    var i := if HeaderLength(p) > t then t else Max(t, HeaderLength(p) + 8);
    assert b[..t] == p;
    if HeaderLength(p) > t {
      LongHeaderShows(b, t);
    } else {
      LongUdpShows(b, t, i);
    }
    var s' := s[i - t := 1];
    assert b[i := 1] == p + s';
    SlicesDiffer(Updated4(b), Updated4(p + s'), t);
    assert Comes4(p, s) != Comes4(p, s');
  }

  /** The packet that comes out depends on the packet that went in alone exactly when that is
      self-contained. */
  lemma AloneIff4(p: bytes, size: nat)
    requires Placed4(p, size)
    ensures Alone4(p, size) <==> SelfContained4(p, size)
  {
    if SelfContained4(p, size) {
      forall s: bytes, s': bytes | |s| == |s'| == size - |p|
        ensures Comes4(p, s) == Comes4(p, s')
      {
        AloneWhen4(p, s, s');
      }
    } else {
      ShowsWhen4(p, size);
    }
  }

  /** Such a packet: 28 bytes with a UDP length of 10, in a buffer of 30. */
  const LONG_UDP: bytes := [0x45, 0, 0, 28, 0, 0, 0, 0, 64, 17] + seq(10, _ => 0) + [0, 53, 0, 53, 0, 10, 0, 0]

  lemma StaleUdpShows()
    ensures Placed4(LONG_UDP, 30) && !Alone4(LONG_UDP, 30)
  {
    hide Alone4;
    assert HeaderLength(LONG_UDP) == 20 && Total(LONG_UDP) == 28 && U16At(LONG_UDP, 24) == 10;
    ShowsWhen4(LONG_UDP, 30);
  }

  // ----- IPv6

  /** A packet with its whole payload, and a buffer that it fits into. */
  predicate Placed6(p: bytes, size: nat) {
    HEADER_LEN <= |p| == HEADER_LEN + U16At(p, 4) <= size
  }

  ghost function Comes6(p: bytes, stale: bytes): bytes {
    Updated6(p + stale)[..|p|]
  }

  ghost predicate Alone6(p: bytes, size: nat)
    requires Placed6(p, size)
  {
    forall s: bytes, s': bytes :: |s| == |s'| == size - |p| ==> Comes6(p, s) == Comes6(p, s')
  }

  /** A UDP length, if the headers lead to one, ends within the packet or leaves the buffer. */
  ghost predicate SelfContained6(p: bytes, size: nat) {
    forall o: nat :: IsTransport(p, UDP, o) ==> !ReachesBehind(p, o, size)
  }

  lemma PlacedPayload6(p: bytes, s: bytes)
    requires HEADER_LEN <= |p| == HEADER_LEN + U16At(p, 4)
    ensures HEADER_LEN <= |p + s| && End(p + s) == End(p) == |p| && SamePayload(p, p + s)
  {
  }

  lemma SegmentSame6(b: bytes, b': bytes, t: byte, o: nat)
    requires HEADER_LEN <= |b| && SameUpTo(b, b', End(b)) && HEADER_LEN <= o < End(b) && Transport(t)
    requires t == UDP ==> o + 7 <= End(b)
    ensures End(b') == End(b) && Segment6(b', t, o) == Segment6(b, t, o)
    ensures Pseudo6(b', t, Segment6(b, t, o)) == Pseudo6(b, t, Segment6(b, t, o))
  {
    assert b'[8..24] == b[8..24] && b'[24..40] == b[24..40];
  }

  lemma TransportSame6(b: bytes, b': bytes, t: byte, o: nat)
    requires HEADER_LEN <= |b| && SameUpTo(b, b', End(b)) && HEADER_LEN <= o < End(b) && Transport(t)
    requires t == UDP ==> !ReachesBehind(b[..End(b)], o, |b|)
    ensures End(b') == End(b) && SameUpTo(Transport6(b, t, o), Transport6(b', t, o), End(b))
  {
    hide Finished, WordSum;
    var e := End(b);
    if t == UDP && o + 7 > e {
      return;
    }
    SegmentSame6(b, b', t, o);
    var n, k := Segment6(b, t, o), Field6(t, o);
    if n > 0 {
      if t == UDP {
        assert U16At(b[..e], o + 4) == U16At(b, o + 4);
        UdpSame(b, b', e, o, n, WordSum(Pseudo6(b, t, n)));
      } else {
        FinishedSame(Zeroed(b, k), Zeroed(b', k), e, k, o, n, WordSum(Pseudo6(b, t, n)), false);
      }
    }
  }

  lemma AloneWhen6(p: bytes, s: bytes, s': bytes)
    requires Placed6(p, |p| + |s|) && |s| == |s'| && SelfContained6(p, |p| + |s|)
    ensures Comes6(p, s) == Comes6(p, s')
  {
    hide Transport6, IsTransport, ReachesBehind;
    var b, b' := p + s, p + s';
    PlacedPayload6(p, s);
    PlacedPayload6(p, s');
    forall t: byte, o: nat
      ensures IsTransport(b, t, o) <==> IsTransport(p, t, o)
      ensures IsTransport(b', t, o) <==> IsTransport(p, t, o)
    {
      TransportSame(p, b, t, o);
      TransportSame(p, b', t, o);
    }
    assert b[..|p|] == p == b'[..|p|];
    if t: byte, o: nat :| IsTransport(p, t, o) {
      UpdatedTo6(b, t, o);
      UpdatedTo6(b', t, o);
      IsTransportKind(p, t, o);
      TransportSame6(b, b', t, o);
      SlicesDiffer(Updated6(b), Updated6(b'), |p|);
    }
  }

  lemma IsTransportKind(b: bytes, t: nat, o: nat)
    requires IsTransport(b, t, o)
    ensures Transport(t)
  {
  }

  lemma UdpShows6(b: bytes, o: nat, i: nat)
    requires HEADER_LEN <= |b| && HEADER_LEN <= o < End(b) && i == Max(End(b), o + 8)
    requires ReachesBehind(b[..End(b)], o, |b|) && b[i] == 0
    ensures End(b[i := 1]) == End(b) && !SameUpTo(Transport6(b, UDP, o), Transport6(b[i := 1], UDP, o), End(b))
  {
    hide Finished, WordSum;
    var n := U16At(b, o + 4);
    assert U16At(b[..End(b)], o + 4) == n;
    assert Segment6(b, UDP, o) == n;
    SegmentSame6(b, b[i := 1], UDP, o);
    Pseudo6Bound(b, UDP, n);
    UdpDiffers(b, End(b), o, n, WordSum(Pseudo6(b, UDP, n)));
  }

  lemma ShowsWhen6(p: bytes, size: nat, o: nat)
    requires Placed6(p, size) && IsTransport(p, UDP, o) && ReachesBehind(p, o, size)
    ensures !Alone6(p, size)
  {
    hide Transport6, IsTransport, Updated6;
    var s, t := Zeros(size - |p|), |p|;
    var i := Max(t, o + 8);
    var s' := s[i - t := 1];
    var b, b' := p + s, p + s';
    assert b[i := 1] == b' && b[..t] == p;
    PlacedPayload6(p, s);
    PlacedPayload6(p, s');
    TransportSame(p, b, UDP, o);
    TransportSame(p, b', UDP, o);
    UpdatedTo6(b, UDP, o);
    UpdatedTo6(b', UDP, o);
    UdpShows6(b, o, i);
    SlicesDiffer(Updated6(b), Updated6(b'), t);
    assert Comes6(p, s) != Comes6(p, s');
  }

  /** The same for IPv6. */
  lemma AloneIff6(p: bytes, size: nat)
    requires Placed6(p, size)
    ensures Alone6(p, size) <==> SelfContained6(p, size)
  {
    hide Comes6, IsTransport, ReachesBehind;
    if SelfContained6(p, size) {
      forall s: bytes, s': bytes | |s| == |s'| == size - |p|
        ensures Comes6(p, s) == Comes6(p, s')
      {
        AloneWhen6(p, s, s');
      }
    } else {
      var o: nat :| IsTransport(p, UDP, o) && ReachesBehind(p, o, size);
      ShowsWhen6(p, size, o);
    }
  }
}
