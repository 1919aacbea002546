/** The rewriting of a packet on its way out of the tunnel: one address is set and the checksums are
    brought up to date, in a slice that may be longer than the packet. */
module PacketRewrite {
  import opened Wrappers
  import opened Bytes
  import opened Checksum
  import opened Framing
  import opened Ipv6Headers
  import opened PacketChecksums
  import opened StaleBytes

  /** The server sets source addresses, the client destinations. Either may have no IPv6 address to
      set; the client's IPv4 destination comes from its connection tracking. */
  datatype Side = ServerSide(ip4: bytes, ip6: Option<bytes>) | ClientSide(ip6: Option<bytes>)

  ghost predicate SideOk(side: Side) {
    (side.ServerSide? ==> |side.ip4| == 4) && (side.ip6.Some? ==> |side.ip6.value| == 16)
  }

  /** What connection tracking may come up with: nothing, or an IPv4 address. */
  ghost predicate MappedOk(mapped: Option<bytes>) {
    mapped.Some? ==> |mapped.value| == 4
  }

  /** Where the address is set. */
  function AddressAt(side: Side, version: nat): nat {
    if side.ServerSide? then (if version == 4 then 12 else 8) else (if version == 4 then 16 else 24)
  }

  /** The address that is set, if any. */
  function AddressFor(side: Side, version: nat, mapped: Option<bytes>): Option<bytes> {
    if version != 4 then side.ip6 else if side.ServerSide? then Some(side.ip4) else mapped
  }

  function Addressed(b: bytes, at: nat, ip: Option<bytes>): (r: bytes)
    requires ip.Some? ==> at + |ip.value| <= |b|
    ensures |r| == |b|
  {
    if ip.None? then b else b[..at] + ip.value + b[at + |ip.value|..]
  }

  /** The address is within the slice, and updating the checksums does not run over its end. */
  predicate Runs(version: nat, b: bytes) {
    if version == 4 then Runs4(b) else 40 <= |b|
  }

  ghost function Rewritten(side: Side, version: nat, mapped: Option<bytes>, b: bytes): (r: bytes)
    requires SideOk(side) && MappedOk(mapped) && Runs(version, b)
    ensures |r| == |b|
  {
    var a := Addressed(b, AddressAt(side, version), AddressFor(side, version, mapped));
    AddressedRuns(side, version, mapped, b);
    if version == 4 then Updated4(a) else Updated6(a)
  }

  lemma AddressedRuns(side: Side, version: nat, mapped: Option<bytes>, b: bytes)
    requires SideOk(side) && MappedOk(mapped) && Runs(version, b)
    ensures Runs(version, Addressed(b, AddressAt(side, version), AddressFor(side, version, mapped)))
  {
  }

  lemma AddressedFront(p: bytes, stale: bytes, at: nat, ip: Option<bytes>)
    requires ip.Some? ==> at + |ip.value| <= |p|
    ensures Addressed(p + stale, at, ip) == Addressed(p, at, ip) + stale
  {
    if ip.Some? {
      var n := at + |ip.value|;
      assert (p + stale)[..at] == p[..at] && (p + stale)[n..] == p[n..] + stale;
    }
  }

  // ----- IPv4

  /** An IPv4 packet as it is handed on: outside address and checksums it is what it was, the address
      is the new one, and every checksum holds. */
  ghost predicate Delivered4(p: bytes, q: bytes, at: nat, ip: Option<bytes>)
    requires 20 <= |p|
  {
    && |q| == |p|
    && (forall i :: 0 <= i < |p| && !(ip.Some? && at <= i < at + 4) && i !in {10, 11, Field4(p), Field4(p) + 1} ==> q[i] == p[i])
    && (WellFormed4(p) ==>
          && WellFormed4(q) && Sound4(q)
          && (ip.None? || forall i :: 0 <= i < |ip.value| && at + i < |q| ==> q[at + i] == ip.value[i]))
  }

  lemma SliceOfFront(b: bytes, t: nat, from: nat, to: nat)
    requires from <= to <= t <= |b|
    ensures b[..t][from..to] == b[from..to]
  {
  }

  lemma FrontTcp4(b: bytes, t: nat)
    requires WellFormed4(b) && TcpSound(b) && t == Total(b)
    ensures WellFormed4(b[..t]) && TcpSound(b[..t])
  {
    hide OnesSum;
    var q, h := b[..t], HeaderLength(b);
    SliceOfFront(b, t, h, t);
    SliceOfFront(b, t, 12, 20);
  }

  lemma FrontUdp4(b: bytes, t: nat)
    requires WellFormed4(b) && UdpSound(b) && t == Total(b)
    ensures WellFormed4(b[..t]) && UdpSound(b[..t])
  {
    hide OnesSum;
    var q, h := b[..t], HeaderLength(b);
    if h + 8 <= t && h + U16At(q, h + 4) <= t {
      var n := U16At(q, h + 4);
      assert U16At(b, h + 4) == n;
      SliceOfFront(b, t, h, h + n);
      SliceOfFront(b, t, 12, 20);
    }
  }

  lemma FrontIcmp4(b: bytes, t: nat)
    requires WellFormed4(b) && IcmpSound(b) && t == Total(b)
    ensures WellFormed4(b[..t]) && IcmpSound(b[..t])
  {
    hide OnesSum;
    var q, h := b[..t], HeaderLength(b);
    SliceOfFront(b, t, h, h + Even(t - h));
  }

  /** The checksums of a buffer are those of the packet in front. */
  lemma FrontSound4(b: bytes, t: nat)
    requires WellFormed4(b) && Sound4(b) && t == Total(b)
    ensures WellFormed4(b[..t]) && Sound4(b[..t])
  {
    hide OnesSum, TcpSound, UdpSound, IcmpSound;
    assert b[..t][..HeaderLength(b)] == b[..HeaderLength(b)];
    if b[9] == TCP {
      FrontTcp4(b, t);
    } else if b[9] == UDP {
      FrontUdp4(b, t);
    } else if b[9] == ICMP {
      FrontIcmp4(b, t);
    }
  }

  lemma Handed4(side: Side, mapped: Option<bytes>, p: bytes, stale: bytes, buf: bytes)
    requires SideOk(side) && MappedOk(mapped) && 20 <= |p| == Total(p) && Runs(4, p + stale)
    requires buf == Rewritten(side, 4, mapped, p + stale)
    ensures Delivered4(p, buf[..|p|], AddressAt(side, 4), AddressFor(side, 4, mapped))
  {
    hide Updated4, Sound4;
    var at, ip, t := AddressAt(side, 4), AddressFor(side, 4, mapped), |p|;
    AddressedRuns(side, 4, mapped, p + stale);
    AddressedFront(p, stale, at, ip);
    var a := Addressed(p, at, ip) + stale;
    OnlyChecksumsChange4(a);
    if WellFormed4(p) {
      UpdatedSound4(a);
      FrontSound4(buf, t);
    }
  }

  // ----- IPv6

  /** The same for IPv6, where at most the checksum of the transport header changes. */
  ghost predicate Delivered6(p: bytes, q: bytes, at: nat, ip: Option<bytes>)
    requires HEADER_LEN <= |p|
  {
    && |q| == |p|
    && (ip.None? || forall i :: 0 <= i < |ip.value| && at + i < |q| ==> q[at + i] == ip.value[i])
    && (!HasTransport(p) ==> SameButAddress(p, q, at, ip, |p|))
    && (forall t: byte, o: nat :: IsTransport(p, t, o) ==>
          SameButAddress(p, q, at, ip, Field6(t, o)) && HEADER_LEN <= o < End(q) && Sound6(q, t, o))
  }

  /** The packets agree outside the address and the field at `k`. */
  ghost predicate SameButAddress(p: bytes, q: bytes, at: nat, ip: Option<bytes>, k: nat) {
    |q| == |p| && forall i :: 0 <= i < |p| && !(ip.Some? && at <= i < at + 16) && i != k && i != k + 1 ==> q[i] == p[i]
  }

  lemma FrontSound6(b: bytes, t: byte, o: nat, e: nat)
    requires HEADER_LEN <= |b| && HEADER_LEN <= o < End(b) && e == End(b) && Transport(t) && Sound6(b, t, o)
    ensures HEADER_LEN <= e && End(b[..e]) == e && Sound6(b[..e], t, o)
  {
    hide OnesSum;
    var q := b[..e];
    var n := Segment6(q, t, o);
    if n > 0 {
      assert Segment6(b, t, o) == n;
      SliceOfFront(b, e, 8, 24);
      SliceOfFront(b, e, 24, 40);
      SliceOfFront(b, e, o, o + n);
    }
  }

  lemma AddressedTransport6(p: bytes, stale: bytes, at: nat, ip: Option<bytes>, t: nat, o: nat)
    requires HEADER_LEN <= |p| == HEADER_LEN + U16At(p, 4) && (at == 8 || at == 24) && (ip.Some? ==> |ip.value| == 16)
    ensures IsTransport(Addressed(p, at, ip) + stale, t, o) <==> IsTransport(p, t, o)
    ensures End(Addressed(p, at, ip) + stale) == |p|
  {
    TransportSame(p, Addressed(p, at, ip) + stale, t, o);
  }

  lemma HandedTransport6(p: bytes, stale: bytes, at: nat, ip: Option<bytes>, t: byte, o: nat, q: bytes)
    requires HEADER_LEN <= |p| == HEADER_LEN + U16At(p, 4) && (at == 8 || at == 24) && (ip.Some? ==> |ip.value| == 16)
    requires IsTransport(p, t, o) && q == Updated6(Addressed(p, at, ip) + stale)[..|p|]
    ensures SameButAddress(p, q, at, ip, Field6(t, o)) && HEADER_LEN <= o < End(q) && Sound6(q, t, o)
    ensures ip.None? || forall i :: 0 <= i < |ip.value| ==> q[at + i] == ip.value[i]
  {
    hide IsTransport, Updated6, Sound6, Transport6;
    var a := Addressed(p, at, ip) + stale;
    AddressedTransport6(p, stale, at, ip, t, o);
    IsTransportKind(p, t, o);
    UpdatedTo6(a, t, o);
    TransportSound6(a, t, o);
    FrontSound6(Updated6(a), t, o, |p|);
  }

  lemma Handed6(side: Side, mapped: Option<bytes>, p: bytes, stale: bytes, buf: bytes)
    requires SideOk(side) && MappedOk(mapped) && HEADER_LEN <= |p| == HEADER_LEN + U16At(p, 4)
    requires buf == Rewritten(side, 6, mapped, p + stale)
    ensures Delivered6(p, buf[..|p|], AddressAt(side, 6), AddressFor(side, 6, mapped))
  {
    hide IsTransport, Updated6, Sound6, Transport6;
    var at, ip, q := AddressAt(side, 6), AddressFor(side, 6, mapped), buf[..|p|];
    AddressedFront(p, stale, at, ip);
    forall t: byte, o: nat | IsTransport(p, t, o)
      ensures SameButAddress(p, q, at, ip, Field6(t, o)) && HEADER_LEN <= o < End(q) && Sound6(q, t, o)
      ensures ip.None? || forall i :: 0 <= i < |ip.value| ==> q[at + i] == ip.value[i]
    {
      HandedTransport6(p, stale, at, ip, t, o, q);
    }
    if !HasTransport(p) {
      forall t: byte, o: nat
        ensures !IsTransport(Addressed(p, at, ip) + stale, t, o)
      {
        AddressedTransport6(p, stale, at, ip, t, o);
      }
      NoTransport6(Addressed(p, at, ip) + stale);
    }
  }

  lemma NoTransport6(b: bytes)
    requires !HasTransport(b)
    ensures Updated6(b) == b
  {
  }

  // ----- Both versions

  /** The packet with its new address. */
  function Readdressed(side: Side, mapped: Option<bytes>, p: bytes): (a: bytes)
    requires IsPacket(p)
    requires AddressFor(side, Version(p), mapped).Some? ==>
               AddressAt(side, Version(p)) + |AddressFor(side, Version(p), mapped).value| <= |p|
    ensures |a| == |p|
  {
    Addressed(p, AddressAt(side, Version(p)), AddressFor(side, Version(p), mapped))
  }

  lemma AddressFits(side: Side, mapped: Option<bytes>, p: bytes)
    requires SideOk(side) && MappedOk(mapped) && IsPacket(p)
    ensures var ip := AddressFor(side, Version(p), mapped);
            ip.Some? ==> AddressAt(side, Version(p)) + |ip.value| <= |p|
  {
  }

  lemma Alone4Out(side: Side, mapped: Option<bytes>, p: bytes, stale: bytes, buf: bytes)
    requires SideOk(side) && MappedOk(mapped) && IsPacket(p) && Version(p) == 4 && Runs(4, p + stale)
    requires buf == Rewritten(side, 4, mapped, p + stale)
    ensures AddressAt(side, 4) + 4 <= |p|
    ensures var a, size := Readdressed(side, mapped, p), |p| + |stale|;
            Placed4(a, size) && (SelfContained4(a, size) ==> buf[..|p|] == Comes4(a, Zeros(size - |p|)))
  {
    hide Updated4;
    AddressFits(side, mapped, p);
    var a := Readdressed(side, mapped, p);
    AddressedRuns(side, 4, mapped, p + stale);
    AddressedFront(p, stale, AddressAt(side, 4), AddressFor(side, 4, mapped));
    PlacedRuns4(a, stale);
    if SelfContained4(a, |p| + |stale|) {
      AloneWhen4(a, stale, Zeros(|stale|));
    }
  }

  lemma Alone6Out(side: Side, mapped: Option<bytes>, p: bytes, stale: bytes, buf: bytes)
    requires SideOk(side) && MappedOk(mapped) && IsPacket(p) && Version(p) == 6 && Runs(6, p + stale)
    requires buf == Rewritten(side, 6, mapped, p + stale)
    ensures AddressAt(side, 6) + 16 <= |p|
    ensures var a, size := Readdressed(side, mapped, p), |p| + |stale|;
            SelfContained6(a, size) ==> buf[..|p|] == Comes6(a, Zeros(size - |p|))
  {
    hide Updated6;
    AddressFits(side, mapped, p);
    var a := Readdressed(side, mapped, p);
    AddressedFront(p, stale, AddressAt(side, 6), AddressFor(side, 6, mapped));
    assert Placed6(a, |p| + |stale|);
    if SelfContained6(a, |p| + |stale|) {
      AloneWhen6(a, stale, Zeros(|stale|));
    }
  }
}
