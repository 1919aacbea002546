/** A slice that is shorter than the packet: exactly then the packet can go on with checksums that do
    not hold. */
module CutSlices {
  import opened Wrappers
  import opened Bytes
  import opened Checksum
  import opened Ipv6Headers
  import opened PacketChecksums
  import opened StaleBytes
  import opened PacketRewrite
  import opened PooledSlices

  /** Two messages that differ in one byte, zero and one, do not both sum to all ones. */
  lemma NotBoth(b: bytes, i: nat)
    requires i < |b| && b[i] == 0 && OnesSum(b) == ONES
    ensures OnesSum(b[i := 1]) != ONES
  {
    hide WordSum, OnesSum;
    OnesSumIs(b);
    OnesSumIs(b[i := 1]);
    WordSumByte(b, i);
    Ones16Add(WordSum(b), Weighed(i, 1));
    Ones16Small(Weighed(i, 1));
  }

  // ----- IPv4

  /** The packet that comes out, of a readdressed packet with old bytes behind it. */
  function Out4(a: bytes, stale: bytes, view: nat): bytes
    requires 20 <= |a| && view <= |a + stale| && Runs4((a + stale)[..view])
  {
    (Updated4((a + stale)[..view]) + (a + stale)[view..])[..|a|]
  }

  /** A packet of its announced length, in a slice on which the routines run. */
  ghost predicate Comes(a: bytes, stale: bytes, view: nat) {
    WellFormed4(a) && Total(a) == |a| && 20 <= view <= |a + stale| && Runs4((a + stale)[..view])
  }

  lemma OutCut4(a: bytes, stale: bytes, view: nat)
    requires 20 <= |a| == Total(a) && 20 <= view < |a|
    ensures Runs4((a + stale)[..view]) && Out4(a, stale, view) == a
  {
    var b := a + stale;
    assert b[..view] == a[..view] && Total(a[..view]) == |a|;
    assert b[..view] + b[view..] == b && b[..|a|] == a;
  }

  lemma OutWhole4(a: bytes, stale: bytes, view: nat)
    requires Comes(a, stale, view) && |a| <= view
    ensures WellFormed4(Out4(a, stale, view)) && Sound4(Out4(a, stale, view))
  {
    hide Updated4, Sound4;
    var s := stale[..view - |a|];
    assert (a + stale)[..view] == a + s;
    PlacedRuns4(a, s);
    OnlyChecksumsChange4(a + s);
    UpdatedSound4(a + s);
    FrontSound4(Updated4(a + s), |a|);
    assert (Updated4(a + s) + (a + stale)[view..])[..|a|] == Updated4(a + s)[..|a|];
  }

  /** A packet comes out with sound checksums exactly when the slice shows all of it, or its checksums
      were those of its new address before. */
  lemma OutSoundIff4(a: bytes, stale: bytes, view: nat)
    requires Comes(a, stale, view)
    ensures var q := Out4(a, stale, view);
            WellFormed4(q) && (Sound4(q) <==> |a| <= view || Sound4(a))
  {
    hide Sound4, Out4;
    if |a| <= view {
      OutWhole4(a, stale, view);
    } else {
      OutCut4(a, stale, view);
    }
  }

  /** Packets of `t` bytes are brought up to date, whatever they hold. */
  ghost predicate BringsUp4(t: nat, size: nat, view: nat) {
    forall a: bytes, stale: bytes :: |a| == t && |a| + |stale| == size && Comes(a, stale, view) ==>
      WellFormed4(Out4(a, stale, view)) && Sound4(Out4(a, stale, view))
  }

  /** A packet of `t` bytes that is nothing but a header and zeros. */
  function Blank4(t: nat): (a: bytes)
    requires 20 <= t < 0x1_0000
    ensures |a| == t && WellFormed4(a) && Total(a) == t && a[8] == 0
  {
    [0x45, 0] + U16(t) + Zeros(t - 4)
  }

  lemma UnsoundAfter(a: bytes)
    requires WellFormed4(a) && HeaderLength(a) == 20 && a[8] == 0
    ensures !Sound4(a) || (WellFormed4(a[8 := 1]) && !Sound4(a[8 := 1]))
  {
    hide OnesSum, TcpSound, UdpSound, IcmpSound;
    if Sound4(a) {
      NotBoth(a[..20], 8);
      assert a[8 := 1][..20] == a[..20][8 := 1];
    }
  }

  /** They are for every content exactly when the slice shows all of the packet. */
  lemma BringsUpIff4(t: nat, size: nat, view: nat)
    requires 20 <= t < 0x1_0000 && t <= size && 20 <= view <= size
    ensures BringsUp4(t, size, view) <==> t <= view
  {
    hide Sound4, Out4, Runs4;
    if t <= view {
      forall a: bytes, stale: bytes | |a| == t && |a| + |stale| == size && Comes(a, stale, view)
        ensures WellFormed4(Out4(a, stale, view)) && Sound4(Out4(a, stale, view))
      {
        OutWhole4(a, stale, view);
      }
    } else {
      var blank, stale := Blank4(t), Zeros(size - t);
      UnsoundAfter(blank);
      var a := if Sound4(blank) then blank[8 := 1] else blank;
      OutCut4(a, stale, view);
      assert Comes(a, stale, view);
    }
  }

  /** A packet of 28 bytes, in a slice of which 20 are in view, goes on with no sound header. */
  lemma CutPacketUnsound()
    ensures var p := Blank4(28);
            Runs4((p + Zeros(2))[..20]) && Out4(p, Zeros(2), 20) == p && OnesSum(p[..20]) != ONES
  {
    hide WordSum, OnesSum, Out4;
    var p := Blank4(28);
    OutCut4(p, Zeros(2), 20);
    assert p[..20] == [0x45, 0] + [0, 28] + Zeros(16);
    WordSumPair(0x45, 0);
    WordSumSnoc2([0x45, 0], 0, 28);
    WordSumAppend([0x45, 0] + [0, 28], Zeros(16));
    WordSumZeros(16);
    OnesSumIs(p[..20]);
    Ones16Small(0x451C);
  }

  lemma {:induction false} WordSumZeros(n: nat)
    ensures WordSum(Zeros(n)) == 0
  {
    if n > 0 {
      WordSumZeros(n - 1);
      WordSumLast(Zeros(n), n - 1);
      assert Zeros(n)[..n - 1] == Zeros(n - 1);
    }
  }

  /** With an MTU of 1500 a client's buffer has 2048 bytes: a UDP length of 1510 in a packet of 28 bytes
      does no harm in a buffer of the MTU's size, and does in this one. */
  const LONGER_UDP: bytes := [0x45, 0, 0, 28, 0, 0, 0, 0, 64, 17] + Zeros(10) + [0, 53, 0, 53, 5, 0xE6, 0, 0]

  lemma ClientBufferShows()
    ensures SizeClass(1500) == 2048 && Placed4(LONGER_UDP, 1500) && Placed4(LONGER_UDP, 2048)
    ensures Alone4(LONGER_UDP, 1500) && !Alone4(LONGER_UDP, 2048)
  {
    hide Alone4;
    assert HeaderLength(LONGER_UDP) == 20 && Total(LONGER_UDP) == 28 && U16At(LONGER_UDP, 24) == 1510;
    AloneIff4(LONGER_UDP, 1500);
    AloneIff4(LONGER_UDP, 2048);
  }

  // ----- IPv6

  ghost function Out6(a: bytes, stale: bytes, view: nat): bytes
    requires view <= |a + stale|
  {
    (Updated6((a + stale)[..view]) + (a + stale)[view..])[..|a|]
  }

  /** The checksum of the transport header holds. */
  ghost predicate AllSound6(q: bytes) {
    forall t: byte, o: nat :: IsTransport(q, t, o) ==> HEADER_LEN <= o < End(q) && Sound6(q, t, o)
  }

  ghost predicate Whole6(a: bytes) {
    HEADER_LEN <= |a| == HEADER_LEN + U16At(a, 4)
  }

  lemma OutWhole6(a: bytes, stale: bytes, view: nat)
    requires Whole6(a) && |a| <= view <= |a + stale|
    ensures AllSound6(Out6(a, stale, view))
  {
    hide IsTransport, Updated6, Sound6;
    var s := stale[..view - |a|];
    assert (a + stale)[..view] == a + s;
    var q := Updated6(a + s)[..|a|];
    assert (Updated6(a + s) + (a + stale)[view..])[..|a|] == q;
    forall t: byte, o: nat | IsTransport(q, t, o)
      ensures HEADER_LEN <= o < End(q) && Sound6(q, t, o)
    {
      OutTransport6(a, s, t, o, q);
    }
  }

  /** The transport header of what comes out is that of what went in. */
  lemma OutTransport6(a: bytes, s: bytes, t: byte, o: nat, q: bytes)
    requires Whole6(a) && q == Updated6(a + s)[..|a|] && IsTransport(q, t, o)
    ensures HEADER_LEN <= o < End(q) && Sound6(q, t, o)
  {
    hide IsTransport, Updated6, Sound6, Transport6;
    if t': byte, o': nat :| IsTransport(a, t', o') {
      assert Addressed(a, 8, None) == a;
      HandedTransport6(a, s, 8, None, t', o', q);
      FieldTransport6(a, q, t', o');
      TransportUnique(q, t, o, t', o');
    } else {
      OutNone6(a, s);
      assert false;
    }
  }

  lemma OutNone6(a: bytes, s: bytes)
    requires Whole6(a) && !HasTransport(a)
    ensures Updated6(a + s)[..|a|] == a
  {
    hide IsTransport, Updated6;
    PlacedPayload6(a, s);
    forall t: byte, o: nat
      ensures !IsTransport(a + s, t, o)
    {
      TransportSame(a, a + s, t, o);
    }
    NoTransport6(a + s);
  }

  /** Writing the checksum does not move the transport header. */
  lemma FieldTransport6(a: bytes, q: bytes, t: byte, o: nat)
    requires IsTransport(a, t, o) && Whole6(a) && SameButAddress(a, q, 8, None, Field6(t, o))
    ensures IsTransport(q, t, o)
  {
    TransportBehindHeader(a, t, o);
    var lengths :| Chain(a, End(a), a[6], HEADER_LEN, lengths, t, o);
    ChainBefore(a, q, a[6], HEADER_LEN, lengths, t, o);
  }

  lemma {:induction false} ChainBefore(a: bytes, q: bytes, t: nat, i: nat, lengths: seq<nat>, t': nat, o: nat)
    requires HEADER_LEN <= |a| == |q| && HEADER_LEN <= i && o <= |a| && Chain(a, End(a), t, i, lengths, t', o)
    requires End(q) == End(a) && forall k :: HEADER_LEN <= k < o ==> q[k] == a[k]
    ensures Chain(q, End(q), t, i, lengths, t', o)
    decreases |lengths|
  {
    if lengths != [] {
      ChainFrom(a, End(a), a[i], i + lengths[0], lengths[1..], t', o);
      ChainBefore(a, q, a[i], i + lengths[0], lengths[1..], t', o);
    }
  }

  /** Packets of `t` bytes are brought up to date, whatever they hold. */
  ghost predicate BringsUp6(t: nat, size: nat, view: nat) {
    forall a: bytes, stale: bytes :: |a| == t && Whole6(a) && |a| + |stale| == size && view <= |a + stale| ==>
      AllSound6(Out6(a, stale, view))
  }

  /** A packet of `t` bytes that is nothing but a header and an ICMPv6 message of zeros. */
  function Blank6(t: nat): (a: bytes)
    requires 44 <= t < 0x1_0028
    ensures |a| == t && Whole6(a) && a[6] == ICMP_V6 && forall i :: HEADER_LEN <= i < t ==> a[i] == 0
  {
    [0x60, 0, 0, 0] + U16(t - 40) + [ICMP_V6, 64] + Zeros(t - 8)
  }

  lemma MessageAt40(b: bytes)
    requires HEADER_LEN < |b| && HEADER_LEN < End(b) && b[6] == ICMP_V6
    ensures IsTransport(b, ICMP_V6, HEADER_LEN)
  {
    ReachesSelf(b, End(b), b[6], HEADER_LEN);
  }

  /** A byte of a message that neither the routine nor its checksum touches: behind the view, or, where
      the view does not show the checksum, the first. */
  function Untouched(view: nat): nat {
    if view < 44 then 40 else view
  }

  lemma ViewOfMessage(a: bytes, view: nat)
    requires 44 <= |a| && Whole6(a) && a[6] == ICMP_V6 && 20 <= view < |a|
    ensures view <= 40 ==> !HasTransport(a[..view])
    ensures 40 < view ==> HEADER_LEN < End(a[..view]) == view && IsTransport(a[..view], ICMP_V6, HEADER_LEN)
  {
    if 40 < view {
      MessageAt40(a[..view]);
    }
  }

  /** Of two messages that differ in such a byte, what comes out differs in that byte. */
  lemma CutDiffers(a: bytes, view: nat, i: nat)
    requires 44 <= |a| && Whole6(a) && a[6] == ICMP_V6 && 20 <= view < |a| && i == Untouched(view)
    ensures CutShort(6, a[i := 1], view) == CutShort(6, a, view)[i := 1]
  {
    hide IsTransport, Updated6, Finished;
    var b := a[i := 1];
    ViewOfMessage(a, view);
    ViewOfMessage(b, view);
    if view <= 40 {
      NoTransport6(a[..view]);
      NoTransport6(b[..view]);
    } else {
      UpdatedTo6(a[..view], ICMP_V6, HEADER_LEN);
      UpdatedTo6(b[..view], ICMP_V6, HEADER_LEN);
    }
    assert 44 <= view ==> b[..view] == a[..view] && b[view..] == a[view..][0 := 1];
  }

  lemma MessageKept(a: bytes, view: nat)
    requires 44 <= |a| && Whole6(a) && a[6] == ICMP_V6 && 20 <= view < |a|
    ensures var q := CutShort(6, a, view);
            |q| == |a| && Whole6(q) && q[6] == ICMP_V6 && forall i :: 44 <= i < |a| || i == 40 ==> q[i] == a[i]
  {
    hide IsTransport, Updated6;
    ViewOfMessage(a, view);
    if view <= 40 {
      NoTransport6(a[..view]);
    } else {
      UpdatedTo6(a[..view], ICMP_V6, HEADER_LEN);
    }
  }

  lemma NotBoth6(q: bytes, i: nat)
    requires 44 <= |q| && Whole6(q) && q[6] == ICMP_V6 && HEADER_LEN <= i < |q| && q[i] == 0
    ensures !(AllSound6(q) && AllSound6(q[i := 1]))
  {
    hide OnesSum, IsTransport;
    var r, n := q[i := 1], |q| - 40;
    MessageAt40(q);
    MessageAt40(r);
    assert Pseudo6(r, ICMP_V6, n) == Pseudo6(q, ICMP_V6, n) by {
      assert r[8..24] == q[8..24] && r[24..40] == q[24..40];
    }
    var whole := Pseudo6(q, ICMP_V6, n) + q[40..];
    assert q[40..40 + n] == q[40..] && Pseudo6(r, ICMP_V6, n) + r[40..40 + n] == whole[i := 1];
    if OnesSum(whole) == ONES {
      NotBoth(whole, i);
    }
  }

  lemma OutCut6(a: bytes, stale: bytes, view: nat)
    requires view <= |a|
    ensures Out6(a, stale, view) == CutShort(6, a, view)
  {
    hide Updated6;
    assert (a + stale)[..view] == a[..view] && (a + stale)[view..] == a[view..] + stale;
  }

  /** They are for every content exactly when the slice shows all of the packet; of shorter packets
      there is no checksum to hold. */
  lemma BringsUpIff6(t: nat, size: nat, view: nat)
    requires 44 <= t < 0x1_0028 && t <= size && 20 <= view <= size
    ensures BringsUp6(t, size, view) <==> t <= view
  {
    hide Out6, CutShort, AllSound6;
    if t <= view {
      forall a: bytes, stale: bytes | |a| == t && Whole6(a) && |a| + |stale| == size && view <= |a + stale|
        ensures AllSound6(Out6(a, stale, view))
      {
        OutWhole6(a, stale, view);
      }
    } else {
      var a, stale, i := Blank6(t), Zeros(size - t), Untouched(view);
      var b := a[i := 1];
      CutDiffers(a, view, i);
      MessageKept(a, view);
      NotBoth6(CutShort(6, a, view), i);
      OutCut6(a, stale, view);
      OutCut6(b, stale, view);
      assert view <= |a + stale| && view <= |b + stale| && Whole6(b);
      assert !AllSound6(Out6(a, stale, view)) || !AllSound6(Out6(b, stale, view));
    }
  }
}
