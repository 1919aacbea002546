/** The buffers packets are rewritten in. A pool hands out slices: so many bytes of room, of which the
    first ones are in view. Indexing stops at the view; slicing, as for copying, reaches all the room. */
module PooledSlices {
  import opened Wrappers
  import opened Bytes
  import opened Checksum
  import opened Framing
  import opened Ipv6Headers
  import opened PacketChecksums
  import opened StaleBytes
  import opened PacketRewrite

  datatype Pooled = Pooled(room: bytes, view: nat)

  const CLASSES: set<nat> := {512, 1024, 2048, 4096, 65536}

  /** The room of a client's buffer: the smallest size class that is large enough, or just enough. */
  function SizeClass(min: nat): (size: nat)
    ensures min <= size && forall c :: c in CLASSES && min <= c ==> size <= c
    ensures size in CLASSES || (size == min && forall c :: c in CLASSES ==> c < min)
  {
    if min <= 512 then 512 else if min <= 1024 then 1024 else if min <= 2048 then 2048
    else if min <= 4096 then 4096 else if min <= 65536 then 65536 else min
  }

  /** The room of the buffers on either side. */
  function RoomFor(side: Side, mtu: nat): (size: nat)
    ensures mtu <= size
  {
    if side.ServerSide? then mtu else SizeClass(mtu)
  }

  /** Slices that are handed out: with all their room in view, unless they may have come back cut. A
      cut slice still shows the packet it was cut to, so at least a header. */
  predicate ViewOk(size: nat, view: nat, cuts: bool) {
    20 <= view <= size && (!cuts ==> view == size)
  }

  // ----- Rewriting in a slice

  predicate RunsIn(version: nat, b: bytes, view: nat) {
    40 <= |b| && 20 <= view <= |b| && (version == 4 ==> Runs4(b[..view]))
  }

  /** The address is set in the room, the checksums are brought up to date in the view. */
  ghost function RewrittenIn(side: Side, version: nat, mapped: Option<bytes>, b: bytes, view: nat): (r: bytes)
    requires SideOk(side) && MappedOk(mapped) && RunsIn(version, b, view)
    ensures |r| == |b|
  {
    var a := Addressed(b, AddressAt(side, version), AddressFor(side, version, mapped));
    AddressedRunsIn(side, version, mapped, b, view);
    (if version == 4 then Updated4(a[..view]) else Updated6(a[..view])) + a[view..]
  }

  lemma AddressedRunsIn(side: Side, version: nat, mapped: Option<bytes>, b: bytes, view: nat)
    requires SideOk(side) && MappedOk(mapped) && RunsIn(version, b, view)
    ensures RunsIn(version, Addressed(b, AddressAt(side, version), AddressFor(side, version, mapped)), view)
  {
  }

  method SetAddress(p: array<byte>, at: nat, ip: bytes)
    requires at + |ip| <= p.Length
    modifies p
    ensures p[..] == Addressed(old(p[..]), at, Some(ip))
  {
    forall i | 0 <= i < |ip| {
      p[at + i] := ip[i];
    }
  }

  /** Brings the checksums up to date in the first `view` bytes. */
  method UpdateView(version: nat, p: array<byte>, view: nat)
    requires 20 <= view <= p.Length && (version == 4 ==> Runs4(p[..view]))
    modifies p
    ensures var b := old(p[..]);
            p[..] == (if version == 4 then Updated4(b[..view]) else Updated6(b[..view])) + b[view..]
  {
    hide Updated4, Updated6;
    var front := p[..view];
    var slice := new byte[view](i requires 0 <= i < view => front[i]);
    assert slice[..] == front == p[..][..view];
    if version == 4 {
      UpdateChecksum4(slice);
    } else {
      UpdateChecksum6(slice);
    }
    forall i | 0 <= i < view {
      p[i] := slice[i];
    }
  }

  method Rewrite(side: Side, version: nat, mapped: Option<bytes>, p: array<byte>, view: nat)
    requires SideOk(side) && MappedOk(mapped) && RunsIn(version, p[..], view)
    modifies p
    ensures p[..] == RewrittenIn(side, version, mapped, old(p[..]), view)
  {
    hide Updated4, Updated6, Runs4;
    AddressedRunsIn(side, version, mapped, p[..], view);
    var ip := AddressFor(side, version, mapped);
    if ip.Some? {
      SetAddress(p, AddressAt(side, version), ip.value);
    }
    assert p[..][..view] == p[..view];
    UpdateView(version, p, view);
  }

  // ----- What is handed on for a packet

  /** The buffer holds the packet, with old bytes behind it, rewritten. */
  ghost predicate HandedOn(side: Side, size: nat, cuts: bool, p: bytes, buf: Pooled)
    requires SideOk(side)
  {
    exists mapped: Option<bytes>, stale: bytes ::
      && p != [] && MappedOk(mapped) && |p| + |stale| == size && ViewOk(size, buf.view, cuts)
      && RunsIn(Version(p), p + stale, buf.view)
      && buf.room == RewrittenIn(side, Version(p), mapped, p + stale, buf.view)
  }

  /** Whatever slice it is given, the rewriting does not run over its end. */
  ghost predicate Safe(p: bytes, size: nat, cuts: bool) {
    && p != []
    && forall stale: bytes, view: nat :: |p| + |stale| == size && ViewOk(size, view, cuts) ==>
         RunsIn(Version(p), p + stale, view)
  }

  lemma RunsInIff(p: bytes, stale: bytes, view: nat)
    requires IsPacket(p) && Version(p) == 4 && 40 <= |p + stale| && 20 <= view <= |p + stale|
    ensures RunsIn(4, p + stale, view) <==> (|p| <= view ==> Placed4(p, view))
  {
    if |p| <= view {
      var s := stale[..view - |p|];
      assert (p + stale)[..view] == p + s;
      PlacedRuns4(p, s);
    } else {
      assert (p + stale)[..view] == p[..view];
    }
  }

  lemma Placed4Grows(p: bytes, size: nat, size': nat)
    requires Placed4(p, size) && size <= size'
    ensures Placed4(p, size')
  {
  }

  /** An IPv4 packet is safe exactly when its header leaves the routines within the buffer; where
      slices may have been cut, within the packet. */
  lemma SafeIff(p: bytes, size: nat, cuts: bool)
    requires IsPacket(p) && |p| <= size && 40 <= size
    ensures Safe(p, size, cuts) <==> (Version(p) == 4 ==> Placed4(p, if cuts then |p| else size))
  {
    hide Placed4, RunsIn;
    if Version(p) == 4 {
      var least := if cuts then |p| else size;
      if Placed4(p, least) {
        forall stale: bytes, view: nat | |p| + |stale| == size && ViewOk(size, view, cuts)
          ensures RunsIn(4, p + stale, view)
        {
          RunsInIff(p, stale, view);
          if |p| <= view {
            Placed4Grows(p, least, view);
          }
        }
      } else {
        var stale := Zeros(size - |p|);
        assert |p| + |stale| == size && ViewOk(size, least, cuts);
        RunsInIff(p, stale, least);
      }
    } else {
      RunsAlways6(p, size, cuts);
    }
  }

  lemma RunsAlways6(p: bytes, size: nat, cuts: bool)
    requires p != [] && Version(p) != 4 && 40 <= size
    ensures Safe(p, size, cuts)
  {
  }

  /** A header has at most 60 bytes, so every packet is safe in a buffer of ordinary size that is never
      cut. */
  lemma OrdinarySize(p: bytes, size: nat)
    requires IsPacket(p) && |p| <= size && 78 <= size
    ensures Safe(p, size, false)
  {
    SafeIff(p, size, false);
  }

  // ----- A packet within the view

  lemma WithinView(side: Side, mapped: Option<bytes>, p: bytes, stale: bytes, view: nat)
    requires SideOk(side) && MappedOk(mapped) && IsPacket(p) && |p| <= view
    requires RunsIn(Version(p), p + stale, view)
    ensures view - |p| <= |stale| && Runs(Version(p), p + stale[..view - |p|])
    ensures RewrittenIn(side, Version(p), mapped, p + stale, view)[..|p|] ==
            Rewritten(side, Version(p), mapped, p + stale[..view - |p|])[..|p|]
  {
    hide Updated4, Updated6, Runs4;
    AddressFits(side, mapped, p);
    var s := stale[..view - |p|];
    var at, ip := AddressAt(side, Version(p)), AddressFor(side, Version(p), mapped);
    assert (p + stale)[..view] == p + s;
    AddressedFront(p, stale, at, ip);
    AddressedFront(p, s, at, ip);
    AddressedRunsIn(side, Version(p), mapped, p + stale, view);
    assert (Addressed(p, at, ip) + stale)[..view] == Addressed(p, at, ip) + s;
  }

  // ----- A packet beyond the view

  /** What becomes of a packet of which only the first bytes are in view: the IPv4 routine leaves it
      alone, the IPv6 routine takes the view for the packet. */
  ghost function CutShort(version: nat, a: bytes, view: nat): bytes
    requires view <= |a|
  {
    if version == 4 then a else Updated6(a[..view]) + a[view..]
  }

  lemma BeyondView(side: Side, mapped: Option<bytes>, p: bytes, stale: bytes, view: nat)
    requires SideOk(side) && MappedOk(mapped) && IsPacket(p) && view < |p|
    requires RunsIn(Version(p), p + stale, view)
    ensures var ip := AddressFor(side, Version(p), mapped); ip.Some? ==> AddressAt(side, Version(p)) + |ip.value| <= |p|
    ensures RewrittenIn(side, Version(p), mapped, p + stale, view)[..|p|] ==
            CutShort(Version(p), Readdressed(side, mapped, p), view)
  {
    hide Updated4, Updated6, Runs4;
    AddressFits(side, mapped, p);
    var a := Readdressed(side, mapped, p);
    AddressedFront(p, stale, AddressAt(side, Version(p)), AddressFor(side, Version(p), mapped));
    AddressedRunsIn(side, Version(p), mapped, p + stale, view);
    SplitView(a, stale, view);
    if Version(p) == 4 {
      LeftAlone4(a, view);
    }
  }

  lemma SplitView(a: bytes, stale: bytes, view: nat)
    requires view <= |a|
    ensures (a + stale)[..view] == a[..view] && (a + stale)[view..] == a[view..] + stale
  {
  }

  lemma LeftAlone4(a: bytes, view: nat)
    requires 20 <= view < |a| && Total(a) == |a|
    ensures Runs4(a[..view]) && Updated4(a[..view]) == a[..view] && a[..view] + a[view..] == a
  {
    assert Total(a[..view]) == |a|;
  }

  // ----- Both together

  /** The server's side sets the source address and leaves the destination alone, the client's side
      the other way round. */
  ghost predicate Addresses(side: Side, mapped: Option<bytes>, p: bytes, q: bytes)
    requires IsPacket(p) && |q| == |p|
  {
    && (Version(p) == 4 && side.ServerSide? ==> q[12..16] == side.ip4 && q[16..20] == p[16..20])
    && (Version(p) == 4 && side.ClientSide? ==> q[12..16] == p[12..16] && q[16..20] == mapped.GetOr(p[16..20]))
    && (Version(p) == 6 && side.ServerSide? ==> q[8..24] == side.ip6.GetOr(p[8..24]) && q[24..40] == p[24..40])
    && (Version(p) == 6 && side.ClientSide? ==> q[8..24] == p[8..24] && q[24..40] == side.ip6.GetOr(p[24..40]))
  }

  lemma SliceIs(q: bytes, at: nat, ip: bytes)
    requires at + |ip| <= |q| && forall i :: 0 <= i < |ip| ==> q[at + i] == ip[i]
    ensures q[at..at + |ip|] == ip
  {
  }

  lemma SliceKept(p: bytes, q: bytes, from: nat, to: nat)
    requires from <= to <= |p| == |q| && forall i :: from <= i < to ==> q[i] == p[i]
    ensures q[from..to] == p[from..to]
  {
  }

  /** The address is the new one, and the other address is the old one. */
  lemma AddressesAre(side: Side, mapped: Option<bytes>, p: bytes, q: bytes, at: nat, ip: Option<bytes>)
    requires SideOk(side) && MappedOk(mapped) && IsPacket(p) && |q| == |p|
    requires at == AddressAt(side, Version(p)) && ip == AddressFor(side, Version(p), mapped)
    requires ip.Some? ==> forall i :: 0 <= i < |ip.value| && at + i < |q| ==> q[at + i] == ip.value[i]
    requires var n := if Version(p) == 4 then 4 else 16;
             var front := if Version(p) == 4 then 12 else 8;
             forall i :: front <= i < front + 2 * n && !(ip.Some? && at <= i < at + n) ==> q[i] == p[i]
    ensures Addresses(side, mapped, p, q)
  {
    AddressFits(side, mapped, p);
    if ip.Some? {
      SliceIs(q, at, ip.value);
    }
    if Version(p) == 4 {
      if side.ClientSide? || ip.None? { SliceKept(p, q, 12, 16); }
      if side.ServerSide? || ip.None? { SliceKept(p, q, 16, 20); }
    } else {
      if side.ClientSide? || ip.None? { SliceKept(p, q, 8, 24); }
      if side.ServerSide? || ip.None? { SliceKept(p, q, 24, 40); }
    }
  }

  lemma DeliveredAddresses4(side: Side, mapped: Option<bytes>, p: bytes, q: bytes)
    requires SideOk(side) && MappedOk(mapped) && IsPacket(p) && Version(p) == 4 && WellFormed4(p)
    requires Delivered4(p, q, AddressAt(side, 4), AddressFor(side, 4, mapped))
    ensures Addresses(side, mapped, p, q)
  {
    hide Sound4, Addresses;
    AddressesAre(side, mapped, p, q, AddressAt(side, 4), AddressFor(side, 4, mapped));
  }

  lemma DeliveredAddresses6(side: Side, mapped: Option<bytes>, p: bytes, q: bytes)
    requires SideOk(side) && MappedOk(mapped) && IsPacket(p) && Version(p) == 6
    requires Delivered6(p, q, AddressAt(side, 6), AddressFor(side, 6, mapped))
    ensures Addresses(side, mapped, p, q)
  {
    hide Sound6, IsTransport, Addresses;
    var at, ip := AddressAt(side, 6), AddressFor(side, 6, mapped);
    forall i | 8 <= i < 40 && !(ip.Some? && at <= i < at + 16)
      ensures q[i] == p[i]
    {
      if t: byte, o: nat :| IsTransport(p, t, o) {
        assert SameButAddress(p, q, at, ip, Field6(t, o));
      }
    }
    AddressesAre(side, mapped, p, q, at, ip);
  }

  lemma CutAddresses6(a: bytes, view: nat)
    requires 40 <= |a| && view <= |a|
    ensures |CutShort(6, a, view)| == |a| && forall i :: 0 <= i < 40 ==> CutShort(6, a, view)[i] == a[i]
  {
    hide IsTransport, Updated6;
    if t: byte, o: nat :| IsTransport(a[..view], t, o) {
      UpdatedTo6(a[..view], t, o);
    } else {
      NoTransport6(a[..view]);
    }
  }

  lemma CutAddresses(side: Side, mapped: Option<bytes>, p: bytes, view: nat)
    requires SideOk(side) && MappedOk(mapped) && IsPacket(p) && view < |p|
    ensures AddressFor(side, Version(p), mapped).Some? ==>
              AddressAt(side, Version(p)) + |AddressFor(side, Version(p), mapped).value| <= |p|
    ensures var q := CutShort(Version(p), Readdressed(side, mapped, p), view);
            |q| == |p| && Addresses(side, mapped, p, q)
  {
    hide Updated6, Addresses;
    AddressFits(side, mapped, p);
    var at, ip, a := AddressAt(side, Version(p)), AddressFor(side, Version(p), mapped), Readdressed(side, mapped, p);
    AddressedBytes(p, at, ip);
    if Version(p) == 6 {
      CutAddresses6(a, view);
    }
    AddressesAre(side, mapped, p, CutShort(Version(p), a, view), at, ip);
  }

  lemma AddressedBytes(b: bytes, at: nat, ip: Option<bytes>)
    requires ip.Some? ==> at + |ip.value| <= |b|
    ensures var a := Addressed(b, at, ip);
            && (ip.Some? ==> forall i :: 0 <= i < |ip.value| ==> a[at + i] == ip.value[i])
            && forall i :: 0 <= i < |b| && !(ip.Some? && at <= i < at + |ip.value|) ==> a[i] == b[i]
  {
  }

  /** In view, the packet came out as it should: of the one sent it differs in address and checksums
      only, which hold; and if it is self-contained, it is the one that comes out of a clean slice.
      Beyond it, the packet came out with its address set and its checksums as the cut leaves them. The
      addresses are those of the side, unless a malformed IPv4 header has its checksum among them. */
  ghost predicate ArrivesAs(side: Side, mapped: Option<bytes>, p: bytes, buf: Pooled)
    requires SideOk(side) && MappedOk(mapped) && IsPacket(p) && |p| <= |buf.room|
  {
    AddressFits(side, mapped, p);
    var v, a, q := Version(p), Readdressed(side, mapped, p), buf.room[..|p|];
    var at, ip := AddressAt(side, v), AddressFor(side, v, mapped);
    && ((v == 4 ==> WellFormed4(p) || buf.view < |p|) ==> Addresses(side, mapped, p, q))
    && if buf.view < |p| then q == CutShort(v, a, buf.view)
    else if v == 4
    then && Delivered4(p, q, at, ip) && Placed4(a, buf.view)
         && (SelfContained4(a, buf.view) ==> q == Comes4(a, Zeros(buf.view - |p|)))
    else && Delivered6(p, q, at, ip)
         && (SelfContained6(a, buf.view) ==> q == Comes6(a, Zeros(buf.view - |p|)))
  }

  ghost predicate Arrives(side: Side, size: nat, cuts: bool, p: bytes, buf: Pooled)
    requires SideOk(side) && IsPacket(p)
  {
    && |p| <= |buf.room| == size && ViewOk(size, buf.view, cuts)
    && exists mapped: Option<bytes> :: MappedOk(mapped) && ArrivesAs(side, mapped, p, buf)
  }

  lemma InViewArrives(side: Side, mapped: Option<bytes>, p: bytes, stale: bytes, buf: Pooled)
    requires SideOk(side) && MappedOk(mapped) && IsPacket(p) && |p| <= buf.view
    requires RunsIn(Version(p), p + stale, buf.view)
    requires buf.room == RewrittenIn(side, Version(p), mapped, p + stale, buf.view)
    ensures ArrivesAs(side, mapped, p, buf)
  {
    hide Rewritten, RewrittenIn, Delivered4, Delivered6, Comes4, Comes6, SelfContained4, SelfContained6, Placed4, Runs, Addresses, WellFormed4;
    AddressFits(side, mapped, p);
    WithinView(side, mapped, p, stale, buf.view);
    var s := stale[..buf.view - |p|];
    var r := Rewritten(side, Version(p), mapped, p + s);
    if Version(p) == 4 {
      Handed4(side, mapped, p, s, r);
      Alone4Out(side, mapped, p, s, r);
      if WellFormed4(p) {
        DeliveredAddresses4(side, mapped, p, r[..|p|]);
      }
    } else {
      Handed6(side, mapped, p, s, r);
      Alone6Out(side, mapped, p, s, r);
      DeliveredAddresses6(side, mapped, p, r[..|p|]);
    }
  }

  /** Whatever slice a packet is handed on in, it has arrived as stated. */
  lemma HandedOnArrives(side: Side, size: nat, cuts: bool, p: bytes, buf: Pooled)
    requires SideOk(side) && IsPacket(p) && HandedOn(side, size, cuts, p, buf)
    ensures Arrives(side, size, cuts, p, buf)
  {
    hide RewrittenIn, RunsIn;
    var mapped: Option<bytes>, stale: bytes :|
      && p != [] && MappedOk(mapped) && |p| + |stale| == size && ViewOk(size, buf.view, cuts)
      && RunsIn(Version(p), p + stale, buf.view)
      && buf.room == RewrittenIn(side, Version(p), mapped, p + stale, buf.view);
    if buf.view < |p| {
      BeyondView(side, mapped, p, stale, buf.view);
      CutAddresses(side, mapped, p, buf.view);
    } else {
      InViewArrives(side, mapped, p, stale, buf);
    }
    assert ArrivesAs(side, mapped, p, buf);
  }
}
