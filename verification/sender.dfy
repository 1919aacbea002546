/** The sending ends of the tunnel: packets are collected in batches, and a batch is written whole
    to a byte-stream connection, or packet by packet to one that keeps datagrams apart. */
module Sender {
  import opened Bytes
  import opened Scan
  import opened Framing

  const MAX_BATCH := 0x1_0000

  datatype Error = NoError | ShortWrite | UnexpectedEOF | Broken

  /** How a write may turn out: in full, short after `n` bytes, or failing after `n` bytes. */
  datatype Answer = InFull | ShortAfter(n: nat) | BrokenAfter(n: nat)

  /** A connection with a finite list of troubles ahead of it, unknown to its user. */
  class Connection {
    const atomic: bool
    var troubles: seq<Answer>
    /** The bytes each write has put on the wire. */
    var writes: seq<bytes>

    constructor (atomic: bool, troubles: seq<Answer>)
      ensures this.atomic == atomic && writes == []
    {
      this.atomic, this.troubles, this.writes := atomic, troubles, [];
    }

    method Write(data: bytes) returns (n: nat, err: Error)
      modifies this
      ensures n <= |data| && writes == old(writes) + [data[..n]]
      ensures err in {NoError, ShortWrite, Broken} && (err == NoError ==> n == |data|)
      ensures |troubles| <= |old(troubles)| && (err == ShortWrite ==> |troubles| < |old(troubles)|)
    {
      n, err := |data|, NoError;
      if troubles != [] {
        match troubles[0] {
          case InFull =>
          case ShortAfter(k) => n, err := if k < |data| then k else |data|, ShortWrite;
          case BrokenAfter(k) => n, err := if k < |data| then k else |data|, Broken;
        }
        troubles := troubles[1..];
      }
      writes := writes + [data[..n]];
    }
  }

  lemma ConcatSnoc(xs: seq<bytes>, x: bytes)
    ensures Concat(xs + [x]) == Concat(xs) + x
  {
    ConcatAppend(xs, [x]);
    assert Concat([x]) == x + Concat([]);
  }

  /** Writes a batch to a byte stream, going on after short writes. */
  method FlushStream(conn: Connection, batch: bytes) returns (err: Error, ghost written: seq<bytes>)
    modifies conn
    ensures conn.writes == old(conn.writes) + written && Concat(written) <= batch
    ensures err in {NoError, Broken} && (err == NoError ==> Concat(written) == batch)
  {
    var left := batch;
    written := [];
    while left != []
      invariant conn.writes == old(conn.writes) + written && Concat(written) + left == batch
      decreases |left| + |conn.troubles|
    {
      var n;
      n, err := conn.Write(left);
      ConcatSnoc(written, left[..n]);
      assert Concat(written) + left == Concat(written) + left[..n] + left[n..];
      written := written + [left[..n]];
      left := left[n..];
      if err != NoError && err != ShortWrite {
        return;
      }
    }
    err := NoError;
  }

  // ----- Packet by packet

  /** The packet at the front of a batch, which has to be there in full. */
  function FlushMove(b: bytes): Move<bytes> {
    if |b| < 20 then Reject
    else if Version(b) != 4 && Version(b) != 6 then Reject
    else
      var total := TotalLength(b);
      if total < 20 || total > |b| then Reject
      else Take(b[..total], total)
  }

  lemma FlushMoves(b: bytes)
    ensures var move := FlushMove(b);
            move.Reject? || (move.Take? && 20 <= move.n <= |b| && move.item == b[..move.n])
  {
  }

  /** What a flush leaves on the wire when it stops early: the packets before the `j`th, and a part
      of that one. */
  ghost predicate CutShort(written: seq<bytes>, packets: seq<bytes>) {
    exists j, n ::
      0 <= j < |packets| && 0 <= n <= |packets[j]| && written == packets[..j] + [packets[j][..n]]
  }

  /** The loop has written `written`, and `left` is what remains of the batch. */
  ghost predicate Flushing(batch: bytes, written: seq<bytes>, left: bytes) {
    Walk(FlushMove, batch) == Prepend(written, Walk(FlushMove, left))
  }

  lemma FlushStarts(batch: bytes)
    ensures Flushing(batch, [], batch)
  {
    PrependTwice([], [], Walk(FlushMove, batch));
  }

  lemma FlushTakes(left: bytes)
    requires FlushMove(left).Take?
    ensures left != [] && FlushMove(left).n <= |left|
    ensures Walk(FlushMove, left) == Prepend([FlushMove(left).item], Walk(FlushMove, left[FlushMove(left).n..]))
  {
  }

  lemma FlushGoesOn(batch: bytes, written: seq<bytes>, left: bytes)
    requires Flushing(batch, written, left) && FlushMove(left).Take?
    ensures FlushMove(left).n <= |left|
    ensures Flushing(batch, written + [FlushMove(left).item], left[FlushMove(left).n..])
  {
    hide FlushMove, Walk, Prepend;
    FlushTakes(left);
    PrependTwice(written, [FlushMove(left).item], Walk(FlushMove, left[FlushMove(left).n..]));
  }

  lemma FlushCut(batch: bytes, written: seq<bytes>, left: bytes, n: nat)
    requires Flushing(batch, written, left) && FlushMove(left).Take? && n <= |FlushMove(left).item|
    ensures CutShort(written + [FlushMove(left).item[..n]], Walk(FlushMove, batch).items)
  {
    hide FlushMove, Walk;
    FlushTakes(left);
    var all, x := Walk(FlushMove, batch).items, FlushMove(left).item;
    assert all == written + ([x] + Walk(FlushMove, left[FlushMove(left).n..]).items);
    assert all[..|written|] == written && all[|written|] == x;
  }

  lemma FlushEnds(batch: bytes, written: seq<bytes>, left: bytes)
    requires Flushing(batch, written, left) && (left == [] || FlushMove(left).Reject?)
    ensures var w := Walk(FlushMove, batch);
            written == w.items && w.outcome == (if left == [] then Finished else Rejected)
  {
    assert written + [] == written;
  }

  /** Writes a batch one packet at a time: each write is one packet, in order. */
  method FlushAsPackets(conn: Connection, batch: bytes) returns (err: Error, ghost written: seq<bytes>)
    modifies conn
    ensures conn.writes == old(conn.writes) + written
    ensures var w := Walk(FlushMove, batch);
            && (err == NoError ==> w.outcome.Finished? && written == w.items)
            && (err == UnexpectedEOF ==> w.outcome.Rejected? && written == w.items)
            && (err in {ShortWrite, Broken} ==> CutShort(written, w.items))
  {
    hide FlushMove, Walk, Prepend, Flushing, CutShort;
    var left := batch;
    written := [];
    FlushStarts(batch);
    while left != []
      invariant conn.writes == old(conn.writes) + written && Flushing(batch, written, left)
      decreases |left|
    {
      var move := FlushMove(left);
      FlushMoves(left);
      if move.Reject? {
        FlushEnds(batch, written, left);
        err := UnexpectedEOF;
        return;
      }
      var n;
      n, err := conn.Write(move.item);
      if (err != NoError && err != ShortWrite) || n < move.n {
        FlushCut(batch, written, left, n);
        err := if err == NoError then ShortWrite else err;
        written := written + [move.item[..n]];
        return;
      }
      assert move.item[..n] == move.item;
      FlushGoesOn(batch, written, left);
      written := written + [move.item];
      left := left[move.n..];
    }
    FlushEnds(batch, written, left);
    err := NoError;
  }

  // ----- When a batch falls back into its packets

  lemma FlushFront(p: bytes, rest: bytes)
    requires IsPacket(p)
    ensures FlushMove(p + rest) == Take(p, |p|) && (p + rest)[|p|..] == rest
  {
    MoveOfPrefix(p, rest);
    HeadOfPrefix(p, rest);
    assert p[|p|..] + rest == rest;
  }

  lemma {:induction false} PacketsFlushed(ps: seq<bytes>)
    requires ArePackets(ps)
    ensures Walk(FlushMove, Concat(ps)) == Walked(ps, [], 0, Finished)
  {
    if ps != [] {
      FlushFront(ps[0], Concat(ps[1..]));
      PacketsFlushed(ps[1..]);
      assert ps == [ps[0]] + ps[1..];
    }
  }

  lemma FlushItem(b: bytes)
    requires FlushMove(b).Take?
    ensures IsPacket(FlushMove(b).item)
  {
    var n := FlushMove(b).n;
    HeadOfPrefix(b[..n], b[n..]);
    assert b[..n] + b[n..] == b && b[..n][..n] == b[..n];
  }

  lemma PacketsCons(p: bytes, ps: seq<bytes>)
    requires IsPacket(p) && ArePackets(ps)
    ensures ArePackets([p] + ps)
  {
  }

  lemma {:induction false} FlushedPackets(b: bytes)
    ensures ArePackets(Walk(FlushMove, b).items)
    ensures Walk(FlushMove, b).outcome.Finished? ==> Concat(Walk(FlushMove, b).items) == b
    decreases |b|
  {
    hide FlushMove, IsPacket;
    FlushMoves(b);
    if b != [] && FlushMove(b).Take? {
      var n := FlushMove(b).n;
      var rest := Walk(FlushMove, b[n..]).items;
      FlushedPackets(b[n..]);
      FlushItem(b);
      PacketsCons(b[..n], rest);
      ConcatCons(b[..n], rest);
      assert b == b[..n] + b[n..];
    }
  }

  /** A batch falls back into the pieces it was made of exactly when each is a packet: of at least 20
      bytes, of version 4 or 6, and as long as its header says. */
  lemma FlushExactIff(ps: seq<bytes>)
    ensures Walk(FlushMove, Concat(ps)) == Walked(ps, [], 0, Finished) <==> ArePackets(ps)
  {
    hide IsPacket;
    if ArePackets(ps) {
      PacketsFlushed(ps);
    }
    FlushedPackets(Concat(ps));
  }

  /** A buffer whose header announces four bytes is accepted, and its batch is not flushed at all. */
  lemma RuntIsRejected()
    ensures var buffer := [0x45, 0, 0, 4] + seq(16, _ => 0);
            && InBuffer(Queued(false, buffer)) == [[0x45, 0, 0, 4]]
            && Walk(FlushMove, Concat(InBuffer(Queued(false, buffer)))) == Walked([], [0x45, 0, 0, 4], 0, Rejected)
  {
    var buffer: bytes := [0x45, 0, 0, 4] + seq(16, _ => 0);
    assert buffer[..4] == [0x45, 0, 0, 4];
    assert Concat([[0x45, 0, 0, 4]]) == [0x45, 0, 0, 4];
  }

  // ----- The batching sender

  /** A packet on the queue: the buffer, and the version it was taken for. */
  datatype Queued = Queued(v6: bool, buffer: bytes)

  function TotalOf(q: Queued): nat
    requires 6 <= |q.buffer|
  {
    if q.v6 then U16At(q.buffer, 4) + 40 else U16At(q.buffer, 2)
  }

  /** The packet in a buffer, if its header announces a length that the buffer holds. */
  function InBuffer(q: Queued): (ps: seq<bytes>)
    requires 6 <= |q.buffer|
  {
    var total := TotalOf(q);
    if total <= 0 || total > |q.buffer| then [] else [q.buffer[..total]]
  }

  /** What a buffer of its version holds is a packet, if it is not shorter than an IPv4 header. */
  lemma InBufferPackets(q: Queued)
    requires 20 <= |q.buffer| && Version(q.buffer) == (if q.v6 then 6 else 4) && 20 <= TotalOf(q)
    ensures ArePackets(InBuffer(q))
  {
    var b, total := q.buffer, TotalOf(q);
    if total <= |b| {
      HeadOfPrefix(b[..total], b[total..]);
      assert b[..total] + b[total..] == b && b[..total][..total] == b[..total];
    }
  }

  /** The buffer was taken for the packet's version, and starts with the packet. */
  ghost predicate Holds(q: Queued, p: bytes) {
    IsPacket(p) && q.v6 == (Version(p) == 6) && p <= q.buffer
  }

  /** What a buffer that starts with a packet holds is that packet, whatever follows it. */
  lemma InBufferIs(q: Queued, p: bytes)
    requires Holds(q, p)
    ensures 6 <= |q.buffer| && InBuffer(q) == [p]
  {
    var tail := q.buffer[|p|..];
    assert q.buffer == p + tail;
    HeadOfPrefix(p, tail);
    assert (p + tail)[..|p|] == p;
  }

  /** Of a buffer of its version that starts with no packet, nothing is taken, or a runt shorter than
      an IPv4 header. */
  lemma InBufferElse(q: Queued)
    requires 20 <= |q.buffer| && Version(q.buffer) == (if q.v6 then 6 else 4) && forall p :: !Holds(q, p)
    ensures InBuffer(q) == [] || |InBuffer(q)[0]| < 20
  {
    var b, total := q.buffer, TotalOf(q);
    if 20 <= total <= |b| {
      HeadOfPrefix(b[..total], b[total..]);
      assert b[..total] + b[total..] == b && b[..total][..total] == b[..total];
      assert Holds(q, b[..total]);
    }
  }

  /** The packets in a list of buffers. */
  function InBuffers(queued: seq<Queued>): seq<bytes>
    requires forall i :: 0 <= i < |queued| ==> 6 <= |queued[i].buffer|
  {
    if queued == [] then [] else InBuffers(queued[..|queued| - 1]) + InBuffer(queued[|queued| - 1])
  }

  ghost predicate AllHold(queued: seq<Queued>, ps: seq<bytes>) {
    |queued| == |ps| && forall i :: 0 <= i < |ps| ==> Holds(queued[i], ps[i])
  }

  lemma {:induction false} InBuffersAre(queued: seq<Queued>, ps: seq<bytes>)
    requires AllHold(queued, ps)
    ensures (forall i :: 0 <= i < |queued| ==> 6 <= |queued[i].buffer|) && InBuffers(queued) == ps
  {
    hide Holds, InBuffer;
    if queued != [] {
      var n := |queued| - 1;
      InBuffersAre(queued[..n], ps[..n]);
      InBufferIs(queued[n], ps[n]);
      assert forall i :: 0 <= i < n ==> queued[..n][i] == queued[i];
      assert ps == ps[..n] + [ps[n]];
    }
  }

  /** The wire carries what was sent; where datagrams are kept apart, each write is one packet. */
  ghost predicate Delivered(writes: seq<bytes>, sent: seq<bytes>, atomic: bool) {
    Concat(writes) == Concat(sent) && (atomic && ArePackets(sent) ==> writes == sent)
  }

  lemma DeliveredMore(writes: seq<bytes>, sent: seq<bytes>, written: seq<bytes>, pending: seq<bytes>, atomic: bool)
    requires Delivered(writes, sent, atomic) && Delivered(written, pending, atomic)
    ensures Delivered(writes + written, sent + pending, atomic)
  {
    hide IsPacket;
    ConcatAppend(writes, written);
    ConcatAppend(sent, pending);
    var all := sent + pending;
    if ArePackets(all) {
      assert forall i :: 0 <= i < |sent| ==> sent[i] == all[i];
      assert forall i :: 0 <= i < |pending| ==> pending[i] == all[|sent| + i];
    }
  }

  lemma HoldsOne(q: Queued)
    requires 6 <= |q.buffer|
    ensures forall p :: Holds(q, p) ==> InBuffer(q) == [p]
  {
    hide Holds, InBuffer;
    forall p | Holds(q, p)
      ensures InBuffer(q) == [p]
    {
      InBufferIs(q, p);
    }
  }

  lemma HoldAll(queued: seq<Queued>)
    requires forall i :: 0 <= i < |queued| ==> 6 <= |queued[i].buffer|
    ensures forall ps :: AllHold(queued, ps) ==> InBuffers(queued) == ps
  {
    hide AllHold, InBuffers;
    forall ps | AllHold(queued, ps)
      ensures InBuffers(queued) == ps
    {
      InBuffersAre(queued, ps);
    }
  }

  class TunnelSender {
    const conn: Connection
    var batch: bytes
    ghost var sent: seq<bytes>
    ghost var pending: seq<bytes>

    /** Everything accepted is either on the wire, in order, or in the batch, which is never full
        between calls. */
    ghost predicate Valid()
      reads this, conn
    {
      && batch == Concat(pending) && |batch| < MAX_BATCH
      && Delivered(conn.writes, sent, conn.atomic)
    }

    constructor (conn: Connection)
      requires conn.writes == []
      ensures Valid() && this.conn == conn && sent == [] && pending == []
    {
      this.conn, batch, sent, pending := conn, [], [], [];
    }

    /** Writes the batch, which is within the limit unless it is a single packet beyond it, and starts
        a new one. */
    method Flush() returns (err: Error)
      requires |batch| <= MAX_BATCH || |pending| == 1
      requires batch == Concat(pending) && Delivered(conn.writes, sent, conn.atomic)
      modifies this, conn
      ensures err == NoError ==> Valid() && pending == [] && sent == old(sent + pending)
    {
      hide ArePackets, FlushMove, Walk;
      ghost var written;
      if conn.atomic {
        err, written := FlushAsPackets(conn, batch);
        FlushExactIff(pending);
        FlushedPackets(batch);
      } else {
        err, written := FlushStream(conn, batch);
      }
      if err == NoError {
        DeliveredMore(old(conn.writes), sent, written, pending, conn.atomic);
        sent, pending, batch := sent + pending, [], [];
      }
    }

    /** Takes one packet into the batch, writing the batch before or after when it is full. */
    method Accept(q: Queued) returns (err: Error)
      requires Valid() && 6 <= |q.buffer|
      modifies this, conn
      ensures err == NoError ==> Valid() && sent + pending == old(sent + pending) + InBuffer(q)
      ensures err == NoError ==> forall p :: Holds(q, p) ==> sent + pending == old(sent + pending) + [p]
    {
      hide Delivered, Holds;
      HoldsOne(q);
      err := NoError;
      var total := TotalOf(q);
      if total <= 0 || total > |q.buffer| {
        return;
      }
      if |batch| + total > MAX_BATCH {
        err := Flush();
        if err != NoError {
          return;
        }
      }
      ConcatSnoc(pending, q.buffer[..total]);
      assert sent + pending + [q.buffer[..total]] == sent + (pending + [q.buffer[..total]]);
      batch, pending := batch + q.buffer[..total], pending + [q.buffer[..total]];
      if |batch| >= MAX_BATCH {
        err := Flush();
      }
    }

    /** One round of the sending loop: the packets that were queued, then a flush because the queue
        is empty. Afterwards the wire carries everything accepted so far, in order. */
    method Round(queued: seq<Queued>) returns (err: Error)
      requires Valid() && forall i :: 0 <= i < |queued| ==> 6 <= |queued[i].buffer|
      modifies this, conn
      ensures err == NoError ==> Valid() && pending == [] && sent == old(sent + pending) + InBuffers(queued)
      ensures err == NoError ==> forall ps :: AllHold(queued, ps) ==> sent == old(sent + pending) + ps
    {
      hide Delivered, AllHold;
      HoldAll(queued);
      var i := 0;
      while i < |queued|
        invariant 0 <= i <= |queued| && Valid()
        invariant sent + pending == old(sent + pending) + InBuffers(queued[..i])
      {
        err := Accept(queued[i]);
        if err != NoError {
          return;
        }
        assert queued[..i + 1][..i] == queued[..i];
        i := i + 1;
      }
      assert queued[..i] == queued;
      err := Flush();
    }
  }
}
