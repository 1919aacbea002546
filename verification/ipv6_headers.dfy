/** The walk over IPv6 extension headers to the transport header (section 4 of RFC 8200). */
module Ipv6Headers {
  import opened Bytes

  const HEADER_LEN := 40
  const TCP := 6
  const UDP := 17
  const ICMP_V6 := 58
  const FRAGMENT := 44
  const AUTHENTICATION := 51

  predicate Transport(t: nat) {
    t == TCP || t == UDP || t == ICMP_V6
  }

  /** Hop-by-hop, routing, destination options, mobility, HIP and Shim6: headers that count their
      length in units of eight bytes, not counting the first. */
  predicate Sized(t: nat) {
    t in {0, 43, 60, 135, 139, 140}
  }

  predicate Extension(t: nat) {
    Sized(t) || t == FRAGMENT || t == AUTHENTICATION
  }

  function HopLength(b: bytes, t: nat, o: nat): (n: nat)
    requires o + 2 <= |b|
    ensures 8 <= n
  {
    if t == FRAGMENT then 8
    else if t == AUTHENTICATION then (b[o + 1] as nat + 2) * 4
    else (b[o + 1] as nat + 1) * 8
  }

  /** The extension header at `o` lies before `end`, and is not a later fragment. */
  predicate Passable(b: bytes, t: nat, o: nat, end: nat)
    requires end <= |b|
  {
    && Extension(t) && o + 2 <= end && o + HopLength(b, t, o) <= end
    && (t == FRAGMENT ==> U16At(b, o + 2) / 8 == 0)
  }

  /** Where the payload ends: at the announced length, or at the end of the bytes. */
  function End(b: bytes): (end: nat)
    requires HEADER_LEN <= |b|
    ensures HEADER_LEN <= end <= |b|
  {
    var announced := HEADER_LEN + U16At(b, 4);
    if announced > |b| then |b| else announced
  }

  // ----- Chains of headers

  /** Extension headers of the given lengths lead from a header of type `t` at `o` to one of type
      `t'` at `o'`. */
  ghost predicate Chain(b: bytes, end: nat, t: nat, o: nat, lengths: seq<nat>, t': nat, o': nat)
    requires end <= |b|
    decreases |lengths|
  {
    if lengths == [] then t' == t && o' == o
    else
      && Passable(b, t, o, end) && lengths[0] == HopLength(b, t, o)
      && Chain(b, end, b[o], o + lengths[0], lengths[1..], t', o')
  }

  ghost predicate Reaches(b: bytes, end: nat, t: nat, o: nat, t': nat, o': nat)
    requires end <= |b|
  {
    exists lengths :: Chain(b, end, t, o, lengths, t', o')
  }

  /** The transport header of a packet: the one its chain of headers leads to. */
  ghost predicate IsTransport(b: bytes, t: nat, o: nat) {
    HEADER_LEN <= |b| && Transport(t) && o < End(b) && Reaches(b, End(b), b[6], HEADER_LEN, t, o)
  }

  lemma ReachesOn(b: bytes, end: nat, t: nat, o: nat, t': nat, o': nat)
    requires end <= |b| && Passable(b, t, o, end)
    requires Reaches(b, end, b[o], o + HopLength(b, t, o), t', o')
    ensures Reaches(b, end, t, o, t', o')
  {
    var n := HopLength(b, t, o);
    var lengths :| Chain(b, end, b[o], o + n, lengths, t', o');
    assert ([n] + lengths)[1..] == lengths;
    assert Chain(b, end, t, o, [n] + lengths, t', o');
  }

  lemma ReachesBack(b: bytes, end: nat, t: nat, o: nat, t': nat, o': nat)
    requires end <= |b| && Passable(b, t, o, end) && Transport(t')
    requires Reaches(b, end, t, o, t', o')
    ensures Reaches(b, end, b[o], o + HopLength(b, t, o), t', o')
  {
    var lengths :| Chain(b, end, t, o, lengths, t', o');
    assert Chain(b, end, b[o], o + lengths[0], lengths[1..], t', o');
  }

  lemma ReachesSelf(b: bytes, end: nat, t: nat, o: nat)
    requires end <= |b|
    ensures Reaches(b, end, t, o, t, o)
  {
    assert Chain(b, end, t, o, [], t, o);
  }

  /** From where no header can be passed, only the header itself is reached. */
  lemma ReachesOnlySelf(b: bytes, end: nat, t: nat, o: nat, t': nat, o': nat)
    requires end <= |b| && !Passable(b, t, o, end) && Reaches(b, end, t, o, t', o')
    ensures t' == t && o' == o
  {
    var lengths :| Chain(b, end, t, o, lengths, t', o');
  }

  /** The loop has come to a header of type `t` at `o`: the transport headers reached from there
      are those of the packet. */
  ghost predicate CameTo(b: bytes, t: nat, o: nat)
    requires HEADER_LEN <= |b|
  {
    forall t', o' :: Transport(t') ==>
      (Reaches(b, End(b), b[6], HEADER_LEN, t', o') <==> Reaches(b, End(b), t, o, t', o'))
  }

  lemma CameOn(b: bytes, t: nat, o: nat)
    requires HEADER_LEN <= |b| && CameTo(b, t, o) && Passable(b, t, o, End(b))
    ensures CameTo(b, b[o], o + HopLength(b, t, o))
  {
    hide Reaches;
    forall t', o' | Transport(t')
      ensures Reaches(b, End(b), t, o, t', o') <==> Reaches(b, End(b), b[o], o + HopLength(b, t, o), t', o')
    {
      if Reaches(b, End(b), t, o, t', o') {
        ReachesBack(b, End(b), t, o, t', o');
      } else if Reaches(b, End(b), b[o], o + HopLength(b, t, o), t', o') {
        ReachesOn(b, End(b), t, o, t', o');
      }
    }
  }

  /** Neither a transport header within the payload nor a header that can be passed: there is no
      transport header. */
  lemma NoWayOn(b: bytes, t: nat, o: nat)
    requires HEADER_LEN <= |b| && CameTo(b, t, o) && !Passable(b, t, o, End(b))
    requires Transport(t) ==> o >= End(b)
    ensures forall t', o' :: !IsTransport(b, t', o')
  {
    hide Passable, Reaches;
    forall t', o' | IsTransport(b, t', o')
      ensures false
    {
      ReachesOnlySelf(b, End(b), t, o, t', o');
    }
  }

  lemma Arrived(b: bytes, t: nat, o: nat)
    requires HEADER_LEN <= |b| && CameTo(b, t, o) && Transport(t) && o < End(b)
    ensures forall t', o' :: IsTransport(b, t', o') <==> t' == t && o' == o
  {
    hide Reaches;
    ReachesSelf(b, End(b), t, o);
    forall t', o' | IsTransport(b, t', o')
      ensures t' == t && o' == o
    {
      ReachesOnlySelf(b, End(b), t, o, t', o');
    }
  }

  /** Finds the transport header exactly when a chain of extension headers leads to one, and then
      there is only that one. */
  method TransportHeader(b: bytes) returns (protocol: nat, offset: nat, length: nat, ok: bool)
    ensures ok ==> forall t, o :: IsTransport(b, t, o) <==> t == protocol && o == offset
    ensures ok ==> Transport(protocol) && HEADER_LEN <= |b| && HEADER_LEN <= offset && 0 < length && offset + length == End(b)
    ensures !ok ==> forall t, o :: !IsTransport(b, t, o)
  {
    hide Reaches;
    protocol, offset, length, ok := 0, 0, 0, false;
    if |b| < HEADER_LEN {
      return;
    }
    var end: nat, next: nat, o: nat := End(b), b[6], HEADER_LEN;
    while true
      invariant HEADER_LEN <= o <= end && CameTo(b, next, o) && !ok
      decreases end - o
    {
      hide CameTo, IsTransport;
      if Transport(next) {
        if o >= end {
          NoWayOn(b, next, o);
          return;
        }
        Arrived(b, next, o);
        return next, o, end - o, true;
      } else if Sized(next) || next == AUTHENTICATION {
        if o + 2 > end {
          NoWayOn(b, next, o);
          return;
        }
        var n: nat := if next == AUTHENTICATION then (b[o + 1] as nat + 2) * 4 else (b[o + 1] as nat + 1) * 8;
        if o + n > end {
          NoWayOn(b, next, o);
          return;
        }
        CameOn(b, next, o);
        next, o := b[o], o + n;
      } else if next == FRAGMENT {
        if o + 8 > end || U16At(b, o + 2) / 8 != 0 {
          NoWayOn(b, next, o);
          return;
        }
        CameOn(b, next, o);
        next, o := b[o], o + 8;
      } else {
        NoWayOn(b, next, o);
        return;
      }
    }
  }

  // ----- What the transport header depends on

  lemma {:induction false} ChainUnique(b: bytes, end: nat, t: nat, o: nat, ls: seq<nat>, t1: nat, o1: nat,
                                       ms: seq<nat>, t2: nat, o2: nat)
    requires end <= |b| && Transport(t1) && Transport(t2)
    requires Chain(b, end, t, o, ls, t1, o1) && Chain(b, end, t, o, ms, t2, o2)
    ensures t1 == t2 && o1 == o2
    decreases |ls|
  {
    if ls != [] {
      ChainUnique(b, end, b[o], o + ls[0], ls[1..], t1, o1, ms[1..], t2, o2);
    }
  }

  lemma TransportUnique(b: bytes, t1: nat, o1: nat, t2: nat, o2: nat)
    requires IsTransport(b, t1, o1) && IsTransport(b, t2, o2)
    ensures t1 == t2 && o1 == o2
  {
    var ls :| Chain(b, End(b), b[6], HEADER_LEN, ls, t1, o1);
    var ms :| Chain(b, End(b), b[6], HEADER_LEN, ms, t2, o2);
    ChainUnique(b, End(b), b[6], HEADER_LEN, ls, t1, o1, ms, t2, o2);
  }

  lemma {:induction false} ChainFrom(b: bytes, end: nat, t: nat, o: nat, lengths: seq<nat>, t': nat, o': nat)
    requires end <= |b| && Chain(b, end, t, o, lengths, t', o')
    ensures o <= o'
    decreases |lengths|
  {
    if lengths != [] {
      ChainFrom(b, end, b[o], o + lengths[0], lengths[1..], t', o');
    }
  }

  lemma TransportBehindHeader(b: bytes, t: nat, o: nat)
    requires IsTransport(b, t, o)
    ensures HEADER_LEN <= o
  {
    var lengths :| Chain(b, End(b), b[6], HEADER_LEN, lengths, t, o);
    ChainFrom(b, End(b), b[6], HEADER_LEN, lengths, t, o);
  }

  /** The two have the same payload length and first header type, and the same payload. */
  ghost predicate SamePayload(b: bytes, b': bytes) {
    && HEADER_LEN <= |b| && HEADER_LEN <= |b'| && End(b) == End(b') && b[6] == b'[6]
    && forall i :: HEADER_LEN <= i < End(b) ==> b'[i] == b[i]
  }

  lemma {:induction false} ChainSame(b: bytes, b': bytes, t: nat, o: nat, lengths: seq<nat>, t': nat, o': nat)
    requires SamePayload(b, b') && HEADER_LEN <= o && Chain(b, End(b), t, o, lengths, t', o')
    ensures Chain(b', End(b'), t, o, lengths, t', o')
    decreases |lengths|
  {
    if lengths != [] {
      ChainSame(b, b', b[o], o + lengths[0], lengths[1..], t', o');
    }
  }

  /** Neither addresses nor what lies behind the payload has a say in where the transport header is. */
  lemma TransportSame(b: bytes, b': bytes, t: nat, o: nat)
    requires SamePayload(b, b')
    ensures IsTransport(b, t, o) <==> IsTransport(b', t, o)
  {
    if IsTransport(b, t, o) {
      var lengths :| Chain(b, End(b), b[6], HEADER_LEN, lengths, t, o);
      ChainSame(b, b', b[6], HEADER_LEN, lengths, t, o);
    }
    if IsTransport(b', t, o) {
      var lengths :| Chain(b', End(b'), b'[6], HEADER_LEN, lengths, t, o);
      ChainSame(b', b, b'[6], HEADER_LEN, lengths, t, o);
    }
  }
}
