/** Both ends of the tunnel together. */
module Tunnel {
  import opened Bytes
  import opened Framing
  import opened PacketRewrite
  import opened PooledSlices
  import opened Receiver
  import opened Sender
  import opened StaleBytes

  /** For each packet, in order, one buffer, in which the packet has arrived as stated. */
  ghost predicate AllArrive(receiver: TunnelReceiver, ps: seq<bytes>)
    requires SideOk(receiver.side) && ArePackets(ps)
    reads receiver
  {
    && |receiver.offered| == |ps|
    && forall i :: 0 <= i < |ps| ==> Arrives(receiver.side, receiver.size, receiver.cuts, ps[i], receiver.offered[i])
  }

  lemma {:induction false} WithinPackets(ps: seq<bytes>, mtu: nat)
    requires ArePackets(ps)
    ensures ArePackets(Within(ps, mtu))
  {
    hide IsPacket;
    if ps != [] {
      WithinPackets(ps[1..], mtu);
    }
  }

  lemma HandedOnArrive(receiver: TunnelReceiver, ps: seq<bytes>)
    requires SideOk(receiver.side) && ArePackets(ps)
    requires AllHandedOn(receiver.side, receiver.size, receiver.cuts, ps, receiver.offered)
    ensures AllArrive(receiver, ps)
  {
    hide HandedOn, Arrives, IsPacket;
    forall i | 0 <= i < |ps|
      ensures Arrives(receiver.side, receiver.size, receiver.cuts, ps[i], receiver.offered[i])
    {
      HandedOnArrives(receiver.side, receiver.size, receiver.cuts, ps[i], receiver.offered[i]);
    }
  }

  /** Once the receiver has read all that the sender has written, in reads of any sizes, it has handed
      on exactly the packets sent that are within the MTU, in order, with nothing left over; and each
      differs from the one sent in its address and its checksums only, which hold. The exception are
      packets in slices that were cut to less: those keep their old checksums, or have one of a part. */
  lemma Delivery(sender: TunnelSender, receiver: TunnelReceiver)
    requires sender.Valid() && receiver.Valid() && ArePackets(sender.sent)
    requires receiver.received == Concat(sender.conn.writes)
    ensures receiver.len == 0 && ArePackets(Within(sender.sent, receiver.mtu))
    ensures AllArrive(receiver, Within(sender.sent, receiver.mtu))
  {
    hide HandedOn, IsPacket;
    PacketsOfConcat(sender.sent);
    WithinPackets(sender.sent, receiver.mtu);
    HandedOnArrive(receiver, Within(sender.sent, receiver.mtu));
  }

  lemma PacketsAppend(ps: seq<bytes>, qs: seq<bytes>)
    requires ArePackets(ps) && ArePackets(qs)
    ensures ArePackets(ps + qs)
  {
    hide IsPacket;
  }

  /** From queue to interface: when a round of the sender, after `before` had been sent, has gone without
      error, the packets the queued buffers start with have arrived behind those from before, in order
      and nothing else: all of them, if none is beyond the MTU. */
  lemma QueuedArrive(sender: TunnelSender, receiver: TunnelReceiver, before: seq<bytes>, queued: seq<Queued>, ps: seq<bytes>)
    requires sender.Valid() && receiver.Valid() && ArePackets(before) && AllHold(queued, ps)
    requires forall i :: 0 <= i < |queued| ==> 6 <= |queued[i].buffer|
    requires sender.sent == before + InBuffers(queued) && receiver.received == Concat(sender.conn.writes)
    ensures receiver.len == 0 && ArePackets(before + ps) && ArePackets(Within(before + ps, receiver.mtu))
    ensures AllArrive(receiver, Within(before + ps, receiver.mtu))
    ensures (forall p :: p in before + ps ==> |p| <= receiver.mtu) ==> AllArrive(receiver, before + ps)
  {
    hide HandedOn, Arrives, IsPacket, InBuffers, Within;
    InBuffersAre(queued, ps);
    forall i | 0 <= i < |ps|
      ensures IsPacket(ps[i])
    {
      assert Sender.Holds(queued[i], ps[i]);
    }
    PacketsAppend(before, ps);
    Delivery(sender, receiver);
    if forall p :: p in before + ps ==> |p| <= receiver.mtu {
      WithinAll(before + ps, receiver.mtu);
    }
  }

  /** While some of it is still under way, the same holds for a first part of what was sent; and no
      end of the tunnel gets stuck or overruns, or has no room for the next read: the server with
      packets up to the size of its buffer, the client with packets up to the MTU. */
  lemma UnderWay(sender: TunnelSender, receiver: TunnelReceiver, max: nat)
    requires sender.Valid() && receiver.Valid() && ArePackets(sender.sent)
    requires receiver.received <= Concat(sender.conn.writes)
    requires 0 < max <= BUFFER_SIZE && (receiver.side.ClientSide? ==> max <= receiver.mtu)
    requires forall i :: 0 <= i < |sender.sent| ==> |sender.sent[i]| <= max
    ensures exists k :: 0 <= k <= |sender.sent| && ArePackets(Within(sender.sent[..k], receiver.mtu)) &&
              AllArrive(receiver, Within(sender.sent[..k], receiver.mtu))
    ensures !Stuck(receiver.received) && receiver.len < BUFFER_SIZE
    ensures receiver.side.ClientSide? ==> !Oversized(Rest(receiver.received), receiver.mtu)
  {
    hide HandedOn, IsPacket;
    Leftover(sender.sent, receiver.received, max);
    var k := |Packets(receiver.received)|;
    assert sender.sent[..k] == Packets(receiver.received);
    WithinPackets(sender.sent[..k], receiver.mtu);
    HandedOnArrive(receiver, Within(sender.sent[..k], receiver.mtu));
  }

  /** Where slices are never cut, no packet is in one that is too short for it. */
  lemma NeverCut(receiver: TunnelReceiver, ps: seq<bytes>, i: nat)
    requires SideOk(receiver.side) && ArePackets(ps) && AllArrive(receiver, ps) && i < |ps| && !receiver.cuts
    ensures |ps[i]| <= receiver.offered[i].view
  {
    assert Arrives(receiver.side, receiver.size, receiver.cuts, ps[i], receiver.offered[i]);
  }

  /** The receiver does not crash on packets whose headers leave the routines within the slice; it
      never does in slices of 78 bytes or more that are not cut. */
  lemma NoCrash(ps: seq<bytes>, size: nat, cuts: bool)
    requires ArePackets(ps) && 40 <= size && forall i :: 0 <= i < |ps| ==> |ps[i]| <= size
    ensures AllSafe(ps, size, cuts) <==>
            forall i :: 0 <= i < |ps| ==> Version(ps[i]) == 4 ==> Placed4(ps[i], if cuts then |ps[i]| else size)
    ensures 78 <= size && !cuts ==> AllSafe(ps, size, cuts)
  {
    hide Safe, Placed4;
    forall i | 0 <= i < |ps|
      ensures Safe(ps[i], size, cuts) <==> (Version(ps[i]) == 4 ==> Placed4(ps[i], if cuts then |ps[i]| else size))
      ensures 78 <= size && !cuts ==> Safe(ps[i], size, cuts)
    {
      SafeIff(ps[i], size, cuts);
      if 78 <= size && !cuts {
        OrdinarySize(ps[i], size);
      }
    }
  }
}
