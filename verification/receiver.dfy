/** The receiving ends of the tunnel: a fixed buffer, filled by reads of any size, from which
    complete packets are taken and a partial one is carried over to the next read. */
module Receiver {
  import opened Wrappers
  import opened Bytes
  import opened Scan
  import opened Framing
  import opened PacketRewrite
  import opened PooledSlices
  import opened Selection

  /** The packets that are handed on: those within the MTU. */
  function Within(packets: seq<bytes>, mtu: nat): seq<bytes> {
    if packets == [] then [] else
    (if |packets[0]| <= mtu then [packets[0]] else []) + Within(packets[1..], mtu)
  }

  lemma {:induction false} WithinAppend(xs: seq<bytes>, ys: seq<bytes>, mtu: nat)
    ensures Within(xs + ys, mtu) == Within(xs, mtu) + Within(ys, mtu)
  {
    if xs == [] {
      assert xs + ys == ys;
    } else {
      assert (xs + ys)[1..] == xs[1..] + ys;
      WithinAppend(xs[1..], ys, mtu);
    }
  }

  /** Every packet up to the MTU is handed on, no longer one is, and their order is kept. */
  lemma {:induction false} WithinSelects(packets: seq<bytes>, mtu: nat)
    ensures Selects(packets, Within(packets, mtu), (p: bytes) => |p| <= mtu)
  {
    hide Selects;
    var fits := (p: bytes) => |p| <= mtu;
    if packets == [] {
      SelectsNothing(fits);
    } else {
      var p, rest := packets[0], packets[1..];
      WithinSelects(rest, mtu);
      SelectsOne(p, fits);
      SelectsAppend([p], if fits(p) then [p] else [], rest, Within(rest, mtu), fits);
      assert [p] + rest == packets;
    }
  }

  lemma {:induction false} WithinAll(packets: seq<bytes>, mtu: nat)
    requires forall i :: 0 <= i < |packets| ==> |packets[i]| <= mtu
    ensures Within(packets, mtu) == packets
  {
    if packets != [] {
      WithinAll(packets[1..], mtu);
    }
  }

  /** The result of a walk over packets, with only the packets handed on. */
  function Filtered(w: Walked<bytes>, mtu: nat): Walked<bytes> {
    w.(items := Within(w.items, mtu))
  }

  lemma FilteredTake(p: bytes, w: Walked<bytes>, mtu: nat)
    ensures Filtered(Prepend([p], w), mtu) ==
            Prepend(if |p| <= mtu then [p] else [], Filtered(w, mtu))
  {
    assert ([p] + w.items)[1..] == w.items;
  }

  // ----- The server's inner loop

  /** A complete packet is handed on, or passed over when it is beyond the MTU. */
  function ServerStep(b: bytes, mtu: nat): Move<bytes> {
    if |b| < 20 then End
    else if !GoodHead(b) then Reject
    else
      var total := TotalLength(b);
      if total > |b| then End
      else if total > mtu then Skip(total)
      else Take(b[..total], total)
  }

  function ServerMove(mtu: nat): bytes -> Move<bytes> {
    b => ServerStep(b, mtu)
  }

  /** The server's loop takes exactly the packets of the stream that are within the MTU. */
  lemma {:induction false} ServerWalk(b: bytes, mtu: nat)
    ensures Walk(ServerMove(mtu), b) == Filtered(Walk(PacketMove, b), mtu)
    decreases |b|
  {
    if PacketMove(b).Take? {
      var n := PacketMove(b).n;
      ServerWalk(b[n..], mtu);
      FilteredTake(b[..n], Walk(PacketMove, b[n..]), mtu);
      PrependTwice([], [], Walk(ServerMove(mtu), b[n..]));
    }
  }

  method TakeAll(unprocessed: bytes, mtu: nat)
    returns (processed: nat, out: seq<bytes>, stuck: bool)
    ensures processed <= |unprocessed| && unprocessed[processed..] == Rest(unprocessed)
    ensures out == Within(Packets(unprocessed), mtu) && stuck == Stuck(unprocessed)
  {
    var outcome;
    out, processed, outcome := WalkLoop(ServerMove(mtu), unprocessed);
    stuck := outcome.Rejected?;
    ServerWalk(unprocessed, mtu);
    NothingLost(unprocessed);
  }

  // ----- The client's inner loop

  /** The client looks at the MTU before it looks whether the packet is complete: it steps over a
      long packet at once, past the bytes it has if they do not cover it. */
  function ClientStep(b: bytes, mtu: nat): Move<bytes> {
    if |b| < 20 then End
    else if !GoodHead(b) then Reject
    else
      var total := TotalLength(b);
      if total > mtu then Skip(total)
      else if total > |b| then End
      else Take(b[..total], total)
  }

  function ClientMove(mtu: nat): bytes -> Move<bytes> {
    b => ClientStep(b, mtu)
  }

  /** The packet at the front is not complete yet, and announces more than the MTU. */
  predicate Oversized(b: bytes, mtu: nat) {
    GoodHead(b) && TotalLength(b) > |b| && TotalLength(b) > mtu
  }

  /** The client's loop does what the server's does, except that it runs past the end of the bytes
      when they end within a packet beyond the MTU. */
  lemma {:induction false} ClientWalk(b: bytes, mtu: nat)
    ensures var w := Walk(PacketMove, b);
            Walk(ClientMove(mtu), b) ==
            if Oversized(w.rest, mtu)
            then Walked(Within(w.items, mtu), [], TotalLength(w.rest) - |w.rest|, Finished)
            else Filtered(w, mtu)
    decreases |b|
  {
    if PacketMove(b).Take? {
      var n := PacketMove(b).n;
      ClientWalk(b[n..], mtu);
      FilteredTake(b[..n], Walk(PacketMove, b[n..]), mtu);
      PrependTwice([], [], Walk(ClientMove(mtu), b[n..]));
    }
  }

  method ClientTakeAll(unprocessed: bytes, mtu: nat)
    returns (processed: nat, out: seq<bytes>, stuck: bool)
    ensures out == Within(Packets(unprocessed), mtu) && stuck == Stuck(unprocessed)
    ensures processed > |unprocessed| <==> Oversized(Rest(unprocessed), mtu)
    ensures processed <= |unprocessed| ==> unprocessed[processed..] == Rest(unprocessed)
  {
    var outcome;
    out, processed, outcome := WalkLoop(ClientMove(mtu), unprocessed);
    stuck := outcome.Rejected?;
    ClientWalk(unprocessed, mtu);
    NothingLost(unprocessed);
  }

  /** Bytes on which the client's loop overruns: the first 20 of a packet of 1501. */
  lemma ClientOverruns()
    ensures var b := [0x45, 0, 5, 0xDD] + seq(16, _ => 0);
            Oversized(Rest(b), 1500)
  {
    var b: bytes := [0x45, 0, 5, 0xDD] + seq(16, _ => 0);
    assert U16At(b, 2) == 1501;
  }

  // ----- The receiving ends

  /** The packets of all that has arrived: those found before, and those found now. */
  lemma CarriedOver(received: bytes, chunk: bytes, unprocessed: bytes, mtu: nat)
    requires unprocessed == Rest(received) + chunk
    ensures Within(Packets(received + chunk), mtu) == Within(Packets(received), mtu) + Within(Packets(unprocessed), mtu)
    ensures Rest(received + chunk) == Rest(unprocessed) && Stuck(received + chunk) == Stuck(unprocessed)
  {
    CarryOver(received, chunk);
    WithinAppend(Packets(received), Packets(unprocessed), mtu);
  }

  /** For each packet, in order, a buffer has been handed on. */
  ghost predicate AllHandedOn(side: Side, size: nat, cuts: bool, ps: seq<bytes>, bufs: seq<Pooled>)
    requires SideOk(side)
  {
    |bufs| == |ps| && forall i :: 0 <= i < |ps| ==> HandedOn(side, size, cuts, ps[i], bufs[i])
  }

  ghost predicate AllSafe(ps: seq<bytes>, size: nat, cuts: bool) {
    forall i :: 0 <= i < |ps| ==> Safe(ps[i], size, cuts)
  }

  /** Every packet taken from a stream names a version and is not empty. */
  ghost predicate Versioned(ps: seq<bytes>, mtu: nat) {
    forall i :: 0 <= i < |ps| ==> 0 < |ps[i]| <= mtu && (Version(ps[i]) == 4 || Version(ps[i]) == 6)
  }

  lemma {:induction false} WithinVersioned(b: bytes, mtu: nat)
    ensures Versioned(Within(Packets(b), mtu), mtu)
    decreases |b|
  {
    if PacketMove(b).Take? {
      WithinVersioned(b[TotalLength(b)..], mtu);
      assert ([b[..TotalLength(b)]] + Packets(b[TotalLength(b)..]))[1..] == Packets(b[TotalLength(b)..]);
    }
  }

  /** What connection tracking says of a packet: nothing, or an address. */
  method Track() returns (mapped: Option<bytes>)
    ensures MappedOk(mapped)
  {
    mapped := *;
    if mapped.Some? && |mapped.value| != 4 {
      mapped := None;
    }
  }

  /** Takes a slice from the pool. Of its contents nothing is known, and where slices come back cut,
      little of its length. */
  method GetBuffer(size: nat, cuts: bool) returns (room: array<byte>, view: nat)
    requires 20 <= size
    ensures fresh(room) && room.Length == size && ViewOk(size, view, cuts)
  {
    room := new byte[size];
    view := *;
    if !ViewOk(size, view, cuts) {
      view := size;
    }
  }

  /** Copies a packet into a pooled slice and rewrites it there; or runs over the end of the slice. */
  method HandOn(side: Side, size: nat, cuts: bool, p: bytes) returns (r: Result<Pooled>)
    requires SideOk(side) && 40 <= size && 0 < |p| <= size && (Version(p) == 4 || Version(p) == 6)
    ensures r.Success? ==> HandedOn(side, size, cuts, p, r.value)
    ensures Safe(p, size, cuts) ==> r.Success?
  {
    hide RewrittenIn;
    var buf, view := GetBuffer(size, cuts);
    ghost var stale := buf[|p|..];
    forall i | 0 <= i < |p| {
      buf[i] := p[i];
    }
    assert buf[..] == p + stale;
    if !RunsIn(Version(p), buf[..], view) {
      return Failure;
    }
    var mapped := Track();
    Rewrite(side, Version(p), mapped, buf, view);
    return Success(Pooled(buf[..], view));
  }

  class TunnelReceiver {
    const side: Side
    const mtu: nat
    /** The room of the pooled slices, and whether they may come back cut: those of the server do, on
        systems other than Linux. */
    const size: nat
    const cuts: bool
    const buffer: array<byte>
    var len: nat
    var offered: seq<Pooled>
    ghost var received: bytes

    /** The buffer holds what is left of the bytes received, and what has been handed on so far is for
        the packets of all bytes received: neither depends on how the reads cut the stream. */
    ghost predicate Valid()
      reads this, buffer
    {
      && SideOk(side) && 40 <= mtu && size == RoomFor(side, mtu)
      && buffer.Length == BUFFER_SIZE && len <= BUFFER_SIZE && buffer[..len] == Rest(received)
      && AllHandedOn(side, size, cuts, Within(Packets(received), mtu), offered)
    }

    constructor (side: Side, mtu: nat, cuts: bool)
      requires SideOk(side) && 40 <= mtu
      ensures Valid() && fresh(buffer) && this.side == side && this.mtu == mtu && this.cuts == cuts
      ensures received == [] && offered == []
    {
      this.side, this.mtu, this.size, this.cuts := side, mtu, RoomFor(side, mtu), cuts;
      buffer := new byte[BUFFER_SIZE];
      len, offered, received := 0, [], [];
    }

    /** One read: the bytes are appended to the buffer, complete packets are handed on, and the
        rest is moved to the front. The client overruns exactly when what has arrived ends within
        a packet beyond the MTU; either side crashes only on a packet whose rewriting may run over
        the end of its buffer. */
    method OnRead(chunk: bytes) returns (stuck: bool, overrun: bool, crashed: bool)
      requires Valid() && len + |chunk| <= BUFFER_SIZE
      modifies this, buffer
      ensures received == old(received) + chunk && stuck == Stuck(received)
      ensures overrun == (side.ClientSide? && Oversized(Rest(received), mtu))
      ensures AllSafe(Within(Packets(received), mtu), size, cuts) ==> !crashed
      ensures !crashed ==> AllHandedOn(side, size, cuts, Within(Packets(received), mtu), offered)
      ensures !overrun && !crashed ==> Valid()
    {
      hide HandedOn, Safe, Walk, PacketMove, Oversized;
      Fill(chunk);
      var unprocessed := buffer[..len];
      var processed, out;
      if side.ClientSide? {
        processed, out, stuck := ClientTakeAll(unprocessed, mtu);
      } else {
        processed, out, stuck := TakeAll(unprocessed, mtu);
      }
      CarriedOver(received, chunk, unprocessed, mtu);
      WithinVersioned(unprocessed, mtu);
      crashed := HandOnAll(out, Within(Packets(received), mtu));
      received := received + chunk;
      overrun := processed > len;
      if !overrun {
        Compact(processed);
      }
    }

    /** Hands packets on, one after the other. */
    method HandOnAll(ps: seq<bytes>, ghost before: seq<bytes>) returns (crashed: bool)
      requires SideOk(side) && 40 <= mtu <= size && Versioned(ps, mtu) && AllHandedOn(side, size, cuts, before, offered)
      modifies this`offered
      ensures !crashed ==> AllHandedOn(side, size, cuts, before + ps, offered)
      ensures AllSafe(before + ps, size, cuts) ==> !crashed
    {
      hide HandedOn, Safe;
      assert before + ps[..0] == before;
      for i := 0 to |ps|
        invariant AllHandedOn(side, size, cuts, before + ps[..i], offered)
      {
        var r := PacketHandedOn(ps, before, i);
        if r.Failure? {
          return true;
        }
        assert before + ps[..i + 1] == before + ps[..i] + [ps[i]];
        offered := offered + [r.value];
      }
      assert before + ps[..|ps|] == before + ps;
      return false;
    }

    method PacketHandedOn(ps: seq<bytes>, ghost before: seq<bytes>, i: nat) returns (r: Result<Pooled>)
      requires SideOk(side) && 40 <= mtu <= size && Versioned(ps, mtu) && i < |ps|
      ensures r.Success? ==> HandedOn(side, size, cuts, ps[i], r.value)
      ensures AllSafe(before + ps, size, cuts) ==> r.Success?
    {
      hide HandedOn, Safe;
      assert (before + ps)[|before| + i] == ps[i];
      r := HandOn(side, size, cuts, ps[i]);
    }

    /** Reads into the free part of the buffer. */
    method Fill(chunk: bytes)
      requires buffer.Length == BUFFER_SIZE && len + |chunk| <= BUFFER_SIZE
      modifies this`len, buffer
      ensures len == old(len) + |chunk| && buffer[..len] == old(buffer[..len]) + chunk
    {
      forall i | 0 <= i < |chunk| {
        buffer[len + i] := chunk[i];
      }
      len := len + |chunk|;
    }

    /** Moves what is left to the front. */
    method Compact(processed: nat)
      requires processed <= len <= buffer.Length
      modifies this`len, buffer
      ensures len == old(len) - processed && buffer[..len] == old(buffer[..len])[processed..]
    {
      forall i | 0 <= i < len - processed {
        buffer[i] := buffer[processed + i];
      }
      len := len - processed;
    }

    /** Before the next read there is room, unless the packet at the front announces more than
        the buffer holds. */
    lemma RoomToRead()
      requires Valid() && !Stuck(received)
      ensures len == BUFFER_SIZE ==> TotalLength(buffer[..len]) > BUFFER_SIZE
    {
      NothingLost(received);
    }
  }

  // ----- Every stream of packets, in every cut

  /** However much of a stream of packets has arrived, the packets found are the first ones, and
      what is left over is shorter than the packet it is the start of; so no receiver gets stuck,
      the buffer has room, and the client's loop overruns only for a packet beyond the MTU. */
  lemma {:induction false} Leftover(ps: seq<bytes>, s: bytes, max: nat)
    requires ArePackets(ps) && s <= Concat(ps) && 0 < max && forall i :: 0 <= i < |ps| ==> |ps[i]| <= max
    ensures Packets(s) <= ps && !Stuck(s) && |Rest(s)| < max && !Oversized(Rest(s), max)
  {
    hide PacketMove, Oversized;
    if ps == [] {
      LeftoverStart([], [], max);
    } else {
      var p := ps[0];
      SplitPrefix(p, Concat(ps[1..]), s);
      if |s| < |p| {
        LeftoverStart(p, s, max);
      } else {
        var s' := s[|p|..];
        TakeFront(p, s');
        Leftover(ps[1..], s', max);
        assert ps == [p] + ps[1..];
      }
    }
  }

  lemma SplitPrefix(p: bytes, rest: bytes, s: bytes)
    requires s <= p + rest
    ensures if |s| < |p| then s < p else s == p + s[|p|..] && s[|p|..] <= rest
  {
    if |s| < |p| {
      assert forall i :: 0 <= i < |s| ==> s[i] == (p + rest)[i];
    } else {
      assert forall i :: 0 <= i < |s| ==> s[i] == (p + rest)[i];
      assert forall i :: 0 <= i < |s| - |p| ==> s[|p|..][i] == rest[i];
    }
  }

  lemma TakeFront(p: bytes, rest: bytes)
    requires IsPacket(p)
    ensures Walk(PacketMove, p + rest) == Prepend([p], Walk(PacketMove, rest))
  {
    MoveOfPrefix(p, rest);
    assert p[|p|..] + rest == rest;
  }

  lemma LeftoverStart(p: bytes, s: bytes, max: nat)
    requires s == [] || (IsPacket(p) && s < p && |p| <= max)
    ensures Walk(PacketMove, s) == Walked([], s, 0, Finished) && !Oversized(s, max)
  {
    if 20 <= |s| {
      HeadOfPrefix(s, p[|s|..]);
      assert s + p[|s|..] == p;
    }
  }
}
