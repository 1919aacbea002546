/** Two walks over the attributes of a received message: the decoder, which finds the digest that is
    checked, and the scan, which finds the bytes that are hashed. They pad differently. */
module StunBoundary {
  import opened Wrappers
  import opened Bytes
  import opened Scan
  import opened StunAttributes
  import opened StunIntegrity

  /** The next attribute for the scan: every length is padded. */
  function ScanNext(b: bytes, i: nat): (j: nat)
    requires i + 4 <= |b|
    ensures i < j
  {
    i + TlvSize(U16At(b, i + 2))
  }

  /** The next attribute for the decoder: lengths are padded for registered types only. */
  function DecoderNext(b: bytes, i: nat): (j: nat)
    requires i + 4 <= |b|
    ensures i < j
  {
    i + (if Registered(U16At(b, i)) then TlvSize(U16At(b, i + 2)) else U16At(b, i + 2) + 4)
  }

  predicate IntegrityAt(b: bytes, i: nat) {
    i + 4 <= |b| && U16At(b, i) == TYPE_MESSAGE_INTEGRITY
  }

  /** The offsets a walk visits, up to the first MESSAGE-INTEGRITY. */
  function ScanTrail(b: bytes, i: nat): seq<nat>
    decreases |b| - i
  {
    if i + 4 > |b| then [] else if IntegrityAt(b, i) then [i] else [i] + ScanTrail(b, ScanNext(b, i))
  }

  function DecoderTrail(b: bytes, i: nat): seq<nat>
    decreases |b| - i
  {
    if i + 4 > |b| then [] else if IntegrityAt(b, i) then [i] else [i] + DecoderTrail(b, DecoderNext(b, i))
  }

  /** The walk comes to a MESSAGE-INTEGRITY. */
  predicate Finds(b: bytes, trail: seq<nat>) {
    trail != [] && IntegrityAt(b, trail[|trail| - 1])
  }

  /** Every attribute on the way that the decoder does not know has a length of whole words. */
  ghost predicate Aligned(b: bytes, trail: seq<nat>) {
    forall k :: 0 <= k < |trail| ==> AlignedAt(b, trail[k])
  }

  predicate AlignedAt(b: bytes, i: nat) {
    i + 4 <= |b| && !Registered(U16At(b, i)) ==> U16At(b, i + 2) % 4 == 0
  }

  lemma NextSame(b: bytes, i: nat)
    requires i + 4 <= |b|
    ensures ScanNext(b, i) == DecoderNext(b, i) <==> AlignedAt(b, i)
  {
  }

  lemma TrailStarts(b: bytes, i: nat)
    ensures ScanTrail(b, i) != [] ==> ScanTrail(b, i)[0] == i
    ensures DecoderTrail(b, i) != [] ==> DecoderTrail(b, i)[0] == i
  {
  }

  lemma AlignedCons(b: bytes, i: nat, rest: seq<nat>)
    ensures Aligned(b, [i] + rest) <==> AlignedAt(b, i) && Aligned(b, rest)
  {
    if Aligned(b, [i] + rest) {
      assert ([i] + rest)[0] == i;
      forall k | 0 <= k < |rest|
        ensures AlignedAt(b, rest[k])
      {
        assert ([i] + rest)[k + 1] == rest[k];
      }
    }
  }

  lemma ConsSame(i: nat, xs: seq<nat>, ys: seq<nat>)
    ensures [i] + xs == [i] + ys <==> xs == ys
  {
    if [i] + xs == [i] + ys {
      assert ([i] + xs)[1..] == xs && ([i] + ys)[1..] == ys;
    }
  }

  /** On the way to the MESSAGE-INTEGRITY that the decoder finds, the two walks visit the same
      attributes exactly when every unknown attribute on that way has a length of whole words. */
  lemma {:induction false} TrailsAgreeIff(b: bytes, i: nat)
    requires Finds(b, DecoderTrail(b, i))
    ensures ScanTrail(b, i) == DecoderTrail(b, i) <==> Aligned(b, DecoderTrail(b, i))
    decreases |b| - i
  {
    if !IntegrityAt(b, i) {
      var d, s := DecoderNext(b, i), ScanNext(b, i);
      var rest, scan := DecoderTrail(b, d), ScanTrail(b, s);
      AlignedCons(b, i, rest);
      ConsSame(i, scan, rest);
      NextSame(b, i);
      TrailStarts(b, d);
      TrailStarts(b, s);
      assert Finds(b, rest);
      if s == d {
        TrailsAgreeIff(b, d);
      }
    }
  }

  /** The scan's boundary is where its walk ends. */
  lemma {:induction false} BoundaryIs(b: bytes, i: nat)
    ensures var trail := ScanTrail(b, i);
            Boundary(b, i) == if Finds(b, trail) then trail[|trail| - 1] else |b|
    decreases |b| - i
  {
    if i + 4 <= |b| && !IntegrityAt(b, i) {
      BoundaryIs(b, ScanNext(b, i));
    }
  }

  // ----- The attribute that the decoder finds

  ghost function Found(b: bytes, i: nat): Result<Attr>
    requires i <= |b| && DecodeAll(b[i..]).Ok?
  {
    First(DecodeAll(b[i..]).value, IsIntegrity)
  }

  ghost predicate FoundAt(b: bytes, i: nat, r: Result<Attr>) {
    var trail := DecoderTrail(b, i);
    if Finds(b, trail)
    then var k := trail[|trail| - 1]; k + 24 <= |b| && r == Success(MessageIntegrity(b[k + 4..k + 24]))
    else r == Failure
  }

  lemma FoundNone(b: bytes, i: nat)
    requires i <= |b| < i + 4
    ensures DecodeAll(b[i..]) == Ok([])
  {
  }

  lemma FoundBeyond(b: bytes, i: nat)
    requires |b| < i + 4
    ensures FoundAt(b, i, Failure) && First([], IsIntegrity) == Failure
  {
  }

  lemma FoundHere(b: bytes, i: nat)
    requires IntegrityAt(b, i) && i + 24 <= |b|
    ensures FoundAt(b, i, Success(MessageIntegrity(b[i + 4..i + 24])))
  {
  }

  lemma TrailNext(b: bytes, i: nat, r: Result<Attr>)
    requires i + 4 <= |b| && !IntegrityAt(b, i)
    ensures FoundAt(b, i, r) <==> FoundAt(b, DecoderNext(b, i), r)
  {
  }

  lemma FoundSkip(b: bytes, i: nat)
    requires i + 4 <= |b| && !Registered(U16At(b, i))
    ensures var j := DecoderNext(b, i);
            DecodeAll(b[i..]) == if j <= |b| then DecodeAll(b[j..]) else Ok([])
  {
    var j := DecoderNext(b, i);
    assert U16At(b[i..], 0) == U16At(b, i) && U16At(b[i..], 2) == U16At(b, i + 2);
    assert j <= |b| ==> b[i..][j - i..] == b[j..];
  }

  lemma FrontTaken(front: bytes, t: nat, n: nat)
    requires 4 <= |front| && t == U16At(front, 0) && n == U16At(front, 2) && Registered(t) && DecodeAll(front).Ok?
    ensures LengthOk(t, n) && 4 + n <= |front|
    ensures AttrMove(front) == Take(FromValue(t, front[4..4 + n]), TlvSize(n))
  {
    hide LengthOk, FromValue, Registered;
    assert DecodeOne(front).Ok?;
    DecodedSize(t, front[4..4 + n]);
  }

  lemma FrontThen(front: bytes, a: Attr, size: nat)
    requires front != [] && 0 < size && AttrMove(front) == Take(a, size) && DecodeAll(front).Ok?
    ensures size <= |front| ==> DecodeAll(front[size..]).Ok?
    ensures DecodeAll(front).value == [a] + if size <= |front| then DecodeAll(front[size..]).value else []
  {
    hide AttrMove;
    assert [a] + [] == [a];
  }

  lemma FoundTake(b: bytes, i: nat)
    requires i + 4 <= |b| && Registered(U16At(b, i)) && DecodeAll(b[i..]).Ok?
    ensures var n, j := U16At(b, i + 2), DecoderNext(b, i);
            && LengthOk(U16At(b, i), n) && i + 4 + n <= |b|
            && var a := FromValue(U16At(b, i), b[i + 4..i + 4 + n]);
               && (j <= |b| ==> DecodeAll(b[j..]).Ok?)
               && DecodeAll(b[i..]).value == [a] + if j <= |b| then DecodeAll(b[j..]).value else []
  {
    hide DecodeAll, AttrMove, LengthOk, FromValue, Registered;
    var front, t, n, j := b[i..], U16At(b, i), U16At(b, i + 2), DecoderNext(b, i);
    FrontTaken(front, t, n);
    assert front[4..4 + n] == b[i + 4..i + 4 + n];
    FrontThen(front, FromValue(t, front[4..4 + n]), TlvSize(n));
    assert j <= |b| ==> front[j - i..] == b[j..];
  }

  lemma FirstCons(a: Attr, rest: seq<Attr>)
    ensures First([a] + rest, IsIntegrity) == if a.MessageIntegrity? then Success(a) else First(rest, IsIntegrity)
  {
    assert ([a] + rest)[1..] == rest;
  }

  lemma KindOf(t: nat, v: bytes)
    requires Registered(t) && LengthOk(t, |v|)
    ensures FromValue(t, v).MessageIntegrity? <==> t == TYPE_MESSAGE_INTEGRITY
    ensures t == TYPE_MESSAGE_INTEGRITY ==> |v| == 20 && FromValue(t, v) == MessageIntegrity(v)
  {
  }

  /** What the decoder finds is the MESSAGE-INTEGRITY that its walk comes to. */
  lemma {:induction false} DecoderFinds(b: bytes, i: nat)
    requires i <= |b| && DecodeAll(b[i..]).Ok?
    ensures FoundAt(b, i, Found(b, i))
    decreases |b| - i
  {
    hide DecodeAll, First, FromValue, LengthOk, Registered, FoundAt, IsIntegrity;
    if i + 4 > |b| {
      FoundNone(b, i);
      FoundBeyond(b, i);
      return;
    }
    var t, n, j := U16At(b, i), U16At(b, i + 2), DecoderNext(b, i);
    if Registered(t) {
      FoundTake(b, i);
      var a := FromValue(t, b[i + 4..i + 4 + n]);
      KindOf(t, b[i + 4..i + 4 + n]);
      FirstCons(a, if j <= |b| then DecodeAll(b[j..]).value else []);
    } else {
      FoundSkip(b, i);
      IntegrityRegistered(t);
    }
    if IntegrityAt(b, i) {
      FoundHere(b, i);
    } else {
      TrailNext(b, i, Found(b, i));
      if j <= |b| {
        DecoderFinds(b, j);
      } else {
        FoundBeyond(b, j);
      }
    }
  }

  lemma IntegrityRegistered(t: nat)
    requires !Registered(t)
    ensures t != TYPE_MESSAGE_INTEGRITY
  {
  }

  // ----- Both together

  /** In a received message that decodes, and holds a MESSAGE-INTEGRITY, the scan stops at the very
      attribute whose digest is checked, if every unknown attribute before it has a length of whole
      words; and only then do the two walks get there by the same way. */
  lemma ScanFindsDigest(b: bytes)
    requires 20 <= |b| && DecodeAll(b[20..]).Ok? && Found(b, 20).Success?
    ensures var trail := DecoderTrail(b, 20);
            && Finds(b, trail)
            && (ScanTrail(b, 20) == trail <==> Aligned(b, trail))
            && (Aligned(b, trail) ==>
                  var k := Boundary(b, 20);
                  k + 24 <= |b| && Found(b, 20) == Success(MessageIntegrity(b[k + 4..k + 24])))
  {
    hide DecodeAll, First, Boundary, ScanTrail, DecoderTrail, Aligned;
    DecoderFinds(b, 20);
    TrailsAgreeIff(b, 20);
    BoundaryIs(b, 20);
  }

  const SOME_DIGEST: Digest := [0, 0xFF, 0xFF, 0, 0, 0, 0, 0, 0, 0, 0, 0, 0, 0, 0, 0, 0, 0, 0, 0]

  /** A message with an unknown attribute of one byte, and a MESSAGE-INTEGRITY. */
  const UNALIGNED: bytes := Zeros(20) + [0x7F, 0xFF, 0, 1, 0] + [0, 8, 0, 20] + SOME_DIGEST

  /** The decoder finds the MESSAGE-INTEGRITY right behind the unknown attribute; the scan, three bytes
      further on, passes over it. */
  lemma ScanMisses()
    ensures DecodeAll(UNALIGNED[20..]) == Ok([MessageIntegrity(SOME_DIGEST)]) && Boundary(UNALIGNED, 20) == |UNALIGNED|
  {
    hide DecodeAll, Boundary;
    var b := UNALIGNED;
    assert U16At(b, 20) == 0x7FFF && U16At(b, 22) == 1 && U16At(b, 28) == 0x1400 && U16At(b, 30) == 0xFFFF;
    BoundaryUnfold(b, 20, 0x7FFF, 1);
    BoundaryUnfold(b, 28, 0x1400, 0xFFFF);
    BoundaryBeyond(b, 28 + TlvSize(0xFFFF));
    FoundSkip(b, 20);
    assert b[25..] == [0, 8, 0, 20] + SOME_DIGEST;
    DigestDecoded(SOME_DIGEST);
  }

  /** A message with two unknown attributes of two bytes, and a MESSAGE-INTEGRITY. */
  const REJOINED: bytes :=
    Zeros(20) + [0x7F, 0xFF, 0, 2, 0, 0] + [0x7F, 0xFF, 0, 2, 0, 0] + [0, 8, 0, 20] + SOME_DIGEST

  /** The two walks part and meet again by accident: what has to hold for the scan to stop at the right
      attribute is less than that they go the same way. */
  lemma MeetAgain()
    ensures DecodeAll(REJOINED[20..]) == Ok([MessageIntegrity(SOME_DIGEST)]) && Boundary(REJOINED, 20) == 32
    ensures !AlignedAt(REJOINED, 20)
  {
    hide DecodeAll, Boundary;
    var b := REJOINED;
    assert U16At(b, 20) == 0x7FFF && U16At(b, 22) == 2 && U16At(b, 28) == 2 && U16At(b, 30) == 0;
    assert U16At(b, 26) == 0x7FFF && U16At(b, 32) == 8 && U16At(b, 34) == 20;
    BoundaryUnfold(b, 20, 0x7FFF, 2);
    BoundaryUnfold(b, 28, 2, 0);
    BoundaryUnfold(b, 32, 8, 20);
    FoundSkip(b, 20);
    FoundSkip(b, 26);
    assert b[32..] == [0, 8, 0, 20] + SOME_DIGEST;
    DigestDecoded(SOME_DIGEST);
  }

  lemma BoundaryBeyond(b: bytes, i: nat)
    requires |b| < i + 4
    ensures Boundary(b, i) == |b|
  {
  }

  lemma DigestDecoded(d: Digest)
    ensures DecodeAll([0, 8, 0, 20] + d) == Ok([MessageIntegrity(d)])
  {
    hide DecodeAll;
    var a := MessageIntegrity(d);
    EncodeDigest(d);
    assert Encode(a) == [0, 8, 0, 20] + d;
    OneEncoded(a);
    DecodeAllEncodeAll([a]);
  }

  lemma OneEncoded(a: Attr)
    ensures EncodeAll([a]) == Encode(a) && (AttrOk(a) ==> AllOk([a]))
  {
    hide Encode, AttrOk;
    FlatMapCons(Encode, a, []);
    assert [a] + [] == [a] && Encode(a) + [] == Encode(a);
  }
}
