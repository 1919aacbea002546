/** STUN attributes and their type-length-value encoding (section 14 of RFC 8489). */
module StunAttributes {
  import opened Bytes
  import opened Scan

  datatype Decoded<T> =
    | Ok(value: T)
    | Bad
    /** The decoder slices past the bytes it was given. */
    | Overrun

  type Digest = s: bytes | |s| == 20 witness ZERO_DIGEST

  const ZERO_DIGEST: bytes := [0, 0, 0, 0, 0, 0, 0, 0, 0, 0, 0, 0, 0, 0, 0, 0, 0, 0, 0, 0]

  datatype Attr =
    | MappedAddress(value: bytes)
    | Username(value: bytes)
    | MessageIntegrity(digest: Digest)
    | MessageIntegritySHA256(value: bytes)
    | ErrorCode(code: nat, reason: bytes)
    | Realm(value: bytes)
    | Nonce(value: bytes)
    | XorMappedAddress(value: bytes)
    | Fingerprint(crc: nat)
    | Priority(number: nat)
    | UseCandidate
    | Controlled(number: nat)
    | Controlling(number: nat)
    | ChangeRequest(number: nat)
    | OtherAddress(value: bytes)

  const TYPE_MESSAGE_INTEGRITY := 0x0008
  const TYPE_FINGERPRINT := 0x8028

  function Type(a: Attr): (t: nat)
    ensures t < 0x1_0000
    ensures t == TYPE_MESSAGE_INTEGRITY <==> a.MessageIntegrity?
    ensures t == TYPE_FINGERPRINT <==> a.Fingerprint?
  {
    match a
    case MappedAddress(_) => 0x0001
    case Username(_) => 0x0006
    case MessageIntegrity(_) => 0x0008
    case MessageIntegritySHA256(_) => 0x001C
    case ErrorCode(_, _) => 0x0009
    case Realm(_) => 0x0014
    case Nonce(_) => 0x0015
    case XorMappedAddress(_) => 0x0020
    case Fingerprint(_) => 0x8028
    case Priority(_) => 0x0024
    case UseCandidate => 0x0025
    case Controlled(_) => 0x8029
    case Controlling(_) => 0x802A
    case ChangeRequest(_) => 0x0003
    case OtherAddress(_) => 0x802C
  }

  predicate Registered(t: nat) {
    t in {0x0001, 0x0006, 0x0008, 0x001C, 0x0009, 0x0014, 0x0015, 0x0020, 0x8028,
          0x0024, 0x0025, 0x8029, 0x802A, 0x0003, 0x802C}
  }

  /** The end of a text value is computed in 16 bits, so from this length on it wraps around. */
  const TEXT_LIMIT := 0xFFFC

  /** USERNAME, REALM and NONCE. */
  predicate IsText(t: nat) {
    t == 0x0006 || t == 0x0014 || t == 0x0015
  }

  /** The attribute fits its wire format. */
  ghost predicate AttrOk(a: Attr) {
    match a
    case MappedAddress(v) => |v| == 8 || |v| == 20
    case XorMappedAddress(v) => |v| == 8 || |v| == 20
    case OtherAddress(v) => |v| == 8 || |v| == 20
    case Username(v) => |v| < TEXT_LIMIT
    case Realm(v) => |v| < TEXT_LIMIT
    case Nonce(v) => |v| < TEXT_LIMIT
    case MessageIntegrity(_) => true
    case MessageIntegritySHA256(v) => |v| == 32
    case ErrorCode(c, r) => c < 25600 && |r| + 4 < 0x1_0000
    case Fingerprint(n) => n < Power(256, 4)
    case Priority(n) => n < Power(256, 4)
    case ChangeRequest(n) => n < Power(256, 4)
    case UseCandidate => true
    case Controlled(n) => n < Power(256, 8)
    case Controlling(n) => n < Power(256, 8)
  }

  /** The value bytes, without type, length and padding. */
  function Value(a: Attr): bytes {
    match a
    case MessageIntegrity(d) => d
    case ErrorCode(c, r) => [0, c / 100 % 256, c % 100, 0] + r
    case Fingerprint(n) => BigEndian(n, 4)
    case Priority(n) => BigEndian(n, 4)
    case ChangeRequest(n) => BigEndian(n, 4)
    case UseCandidate => []
    case Controlled(n) => BigEndian(n, 8)
    case Controlling(n) => BigEndian(n, 8)
    case _ => a.value
  }

  function Padding(n: nat): nat {
    if n % 4 == 0 then 0 else 4 - n % 4
  }

  /** Type, length and value, padded to a multiple of four bytes. */
  function Tlv(t: nat, v: bytes): (s: bytes)
    requires t < 0x1_0000
    ensures |s| == TlvSize(|v|) && forall i :: 4 + |v| <= i < |s| ==> s[i] == 0
  {
    U16(t) + U16(|v| % 0x1_0000) + v + Zeros(Padding(|v|))
  }

  function TlvSize(n: nat): (size: nat)
    ensures n + 4 <= size < n + 8 && size % 4 == 0
  {
    4 + n + Padding(n)
  }

  function Size(a: Attr): nat {
    TlvSize(|Value(a)|)
  }

  function Encode(a: Attr): bytes {
    Tlv(Type(a), Value(a))
  }

  function EncodeAll(attrs: seq<Attr>): bytes {
    FlatMap(Encode, attrs)
  }

  /** The value lengths the decoder of each type accepts. */
  predicate LengthOk(t: nat, n: nat) {
    if t in {0x0001, 0x0020, 0x802C} then n == 8 || n == 20
    else if t == 0x0008 then n == 20
    else if t == 0x001C then n == 32
    else if t == 0x0009 then 4 <= n
    else if t in {0x8028, 0x0024, 0x0003} then n == 4
    else if t == 0x0025 then n == 0
    else if t in {0x8029, 0x802A} then n == 8
    else true
  }

  function FromValue(t: nat, v: bytes): Attr
    requires Registered(t) && LengthOk(t, |v|)
  {
    match t
    case 0x0001 => MappedAddress(v)
    case 0x0006 => Username(v)
    case 0x0008 => MessageIntegrity(v)
    case 0x001C => MessageIntegritySHA256(v)
    case 0x0009 => ErrorCode((v[1] as nat) * 100 + v[2] as nat, v[4..])
    case 0x0014 => Realm(v)
    case 0x0015 => Nonce(v)
    case 0x0020 => XorMappedAddress(v)
    case 0x8028 => Fingerprint(FromBigEndian(v))
    case 0x0024 => Priority(FromBigEndian(v))
    case 0x0025 => UseCandidate
    case 0x8029 => Controlled(FromBigEndian(v))
    case 0x802A => Controlling(FromBigEndian(v))
    case 0x0003 => ChangeRequest(FromBigEndian(v))
    case _ => OtherAddress(v)
  }

  /** Decodes the attribute at the front of `b`, whose type is in the registry. Every decoder
      checks that the value lies within `b`, except the one for ERROR-CODE: that one checks for
      its first eight bytes only, and slices the reason phrase unchecked. The decoders of text slice
      to an end that has wrapped around when the text is long enough. */
  function DecodeOne(b: bytes): Decoded<Attr>
    requires 4 <= |b| && Registered(U16At(b, 0))
  {
    var t, n := U16At(b, 0), U16At(b, 2);
    if !LengthOk(t, n) then Bad
    else if 4 + n <= |b| then if IsText(t) && TEXT_LIMIT <= n then Overrun else Ok(FromValue(t, b[4..4 + n]))
    else if t == 0x0009 && 8 <= |b| then Overrun
    else Bad
  }

  /** Types outside the registry are skipped, by their unpadded length. */
  function AttrMove(b: bytes): Move<Attr> {
    if |b| < 4 then End
    else if !Registered(U16At(b, 0)) then Skip(U16At(b, 2) + 4)
    else
      match DecodeOne(b)
      case Ok(a) => Take(a, Size(a))
      case Bad => Reject
      case Overrun => RunOver
  }

  /** What the decoder returns: the attributes it took, unless it gave up. */
  function Verdict(w: Walked<Attr>): Decoded<seq<Attr>> {
    match w.outcome
    case Finished => Ok(w.items)
    case Rejected => Bad
    case Overran => Overrun
  }

  /** Decodes the attribute bytes of a message. */
  function DecodeAll(b: bytes): Decoded<seq<Attr>> {
    Verdict(Walk(AttrMove, b))
  }

  /** The decoding loop. */
  method DecodeAttributes(b: bytes) returns (r: Decoded<seq<Attr>>)
    ensures r == DecodeAll(b)
  {
    var items, offset, outcome := WalkLoop(AttrMove, b);
    r := match outcome
         case Finished => Ok(items)
         case Rejected => Bad
         case Overran => Overrun;
  }

  // ----- Laws

  ghost predicate AllOk(attrs: seq<Attr>) {
    attrs == [] || (AttrOk(attrs[0]) && AllOk(attrs[1..]))
  }

  lemma {:induction false} AllOkAppend(xs: seq<Attr>, ys: seq<Attr>)
    ensures AllOk(xs + ys) <==> AllOk(xs) && AllOk(ys)
  {
    if xs == [] {
      assert xs + ys == ys;
    } else {
      assert (xs + ys)[1..] == xs[1..] + ys;
      AllOkAppend(xs[1..], ys);
    }
  }

  lemma AllOkSnoc(xs: seq<Attr>, a: Attr)
    ensures AllOk(xs + [a]) <==> AllOk(xs) && AttrOk(a)
  {
    AllOkAppend(xs, [a]);
    assert AllOk([a]) <==> AttrOk(a);
  }

  lemma ValueInverse(a: Attr)
    requires AttrOk(a)
    ensures |Value(a)| < 0x1_0000 && Registered(Type(a)) && LengthOk(Type(a), |Value(a)|)
    ensures FromValue(Type(a), Value(a)) == a
  {
    match a
    case Fingerprint(n) => BigEndianRoundTrip(n, 4);
    case Priority(n) => BigEndianRoundTrip(n, 4);
    case ChangeRequest(n) => BigEndianRoundTrip(n, 4);
    case Controlled(n) => BigEndianRoundTrip(n, 8);
    case Controlling(n) => BigEndianRoundTrip(n, 8);
    case _ =>
  }

  lemma TlvFront(t: nat, v: bytes, tail: bytes)
    requires t < 0x1_0000 && |v| < 0x1_0000
    ensures var b := Tlv(t, v) + tail;
            && 4 + |v| <= |b| && U16At(b, 0) == t && U16At(b, 2) == |v|
            && b[4..4 + |v|] == v && b[TlvSize(|v|)..] == tail
  {
    var b := Tlv(t, v) + tail;
    assert b[4..4 + |v|] == v;
  }

  /** One attribute survives encoding and decoding, whatever follows it. */
  lemma DecodeEncode(a: Attr, tail: bytes)
    requires AttrOk(a)
    ensures var b := Encode(a) + tail;
            && 4 <= |b| && U16At(b, 0) == Type(a) && Registered(Type(a))
            && DecodeOne(b) == Ok(a) && Size(a) <= |b| && b[Size(a)..] == tail
  {
    ValueInverse(a);
    TlvFront(Type(a), Value(a), tail);
  }

  /** The attribute types by number, as the registry of section 18.3 of RFC 8489 and RFC 8445 and RFC 5780
      have them. */
  lemma RegistryNumbers(v: bytes, d: Digest, n: nat)
    ensures [Type(MappedAddress(v)), Type(ChangeRequest(n)), Type(Username(v)), Type(MessageIntegrity(d))]
            == [0x0001, 0x0003, 0x0006, 0x0008]
    ensures [Type(ErrorCode(n, v)), Type(Realm(v)), Type(Nonce(v)), Type(MessageIntegritySHA256(v))]
            == [0x0009, 0x0014, 0x0015, 0x001C]
    ensures [Type(XorMappedAddress(v)), Type(Priority(n)), Type(UseCandidate)] == [0x0020, 0x0024, 0x0025]
    ensures [Type(Fingerprint(n)), Type(Controlled(n)), Type(Controlling(n)), Type(OtherAddress(v))]
            == [0x8028, 0x8029, 0x802A, 0x802C]
  {
  }

  /** Whatever is decoded has the type and the length that the bytes announce, fits its wire format and
      encodes to the same value; except that an ERROR-CODE need not be one that is ever encoded. */
  lemma DecodedIs(b: bytes, a: Attr)
    requires 4 <= |b| && Registered(U16At(b, 0)) && DecodeOne(b) == Ok(a)
    ensures U16At(b, 0) == Type(a) && 4 + U16At(b, 2) <= |b|
    ensures !a.ErrorCode? ==> AttrOk(a) && Value(a) == b[4..4 + U16At(b, 2)]
    ensures a.ErrorCode? ==>
              && 4 <= U16At(b, 2) && a.code == 100 * b[5] as nat + b[6] as nat
              && a.reason == b[8..4 + U16At(b, 2)]
  {
    hide AttrOk, Value, FromBigEndian, BigEndian;
    var t, v := U16At(b, 0), b[4..4 + U16At(b, 2)];
    if t == 0x0009 {
      assert v[4..] == b[8..4 + U16At(b, 2)];
    } else {
      FromValueExact(t, v);
    }
  }

  lemma FromValueExact(t: nat, v: bytes)
    requires Registered(t) && LengthOk(t, |v|) && t != 0x0009 && (IsText(t) ==> |v| < TEXT_LIMIT)
    ensures var a := FromValue(t, v);
            Type(a) == t && AttrOk(a) && Value(a) == v && !a.ErrorCode?
  {
    BigEndianInverse(v);
    FromBigEndianBound(v);
  }

  /** An attribute of a type outside the registry is passed over, with no padding behind it. */
  lemma UnknownSkipped(t: nat, v: bytes, tail: bytes)
    requires t < 0x1_0000 && !Registered(t) && |v| < 0x1_0000
    ensures DecodeAll(U16(t) + U16(|v|) + v + tail) == DecodeAll(tail)
  {
    var b := U16(t) + U16(|v|) + v + tail;
    assert U16At(b, 0) == t && U16At(b, 2) == |v|;
    assert b[|v| + 4..] == tail;
  }

  lemma DecodeAllCons(a: Attr, tail: bytes)
    requires AttrOk(a)
    ensures DecodeAll(Encode(a) + tail) == Verdict(Prepend([a], Walk(AttrMove, tail)))
  {
    DecodeEncode(a, tail);
    WalkTakes(AttrMove, Encode(a) + tail, a, Size(a), tail);
  }

  /** Decoding gives back the attribute list that was encoded. */
  lemma {:induction false} DecodeAllEncodeAll(attrs: seq<Attr>)
    requires AllOk(attrs)
    ensures DecodeAll(EncodeAll(attrs)) == Ok(attrs)
  {
    if attrs != [] {
      DecodeAllEncodeAll(attrs[1..]);
      DecodeAllCons(attrs[0], EncodeAll(attrs[1..]));
      assert attrs == [attrs[0]] + attrs[1..];
    }
  }

  /** Decoding is not total: this ERROR-CODE attribute announces one byte more than it has. */
  lemma DecodeOverruns()
    ensures DecodeAll([0, 9, 0, 5, 0, 4, 1, 0]) == Overrun
  {
    assert AttrMove([0, 9, 0, 5, 0, 4, 1, 0]) == RunOver;
  }

  /** Nor is this USERNAME of 65532 bytes decoded, although all of it is there. */
  lemma LongTextOverruns()
    ensures DecodeAll([0, 6, 0xFF, 0xFC] + seq(TEXT_LIMIT, _ => 0)) == Overrun
  {
    var b: bytes := [0, 6, 0xFF, 0xFC] + seq(TEXT_LIMIT, _ => 0);
    assert U16At(b, 0) == 6 && U16At(b, 2) == TEXT_LIMIT;
    assert AttrMove(b) == RunOver;
  }

  lemma DecodedSize(t: nat, v: bytes)
    requires Registered(t) && LengthOk(t, |v|)
    ensures |Value(FromValue(t, v))| == |v|
  {
  }

  /** The text at the front is there, and long enough for its end to wrap around. */
  ghost predicate WrappedText(b: bytes) {
    4 <= |b| && IsText(U16At(b, 0)) && TEXT_LIMIT <= U16At(b, 2) <= |b| - 4
  }

  /** The attribute at the front has a length its type allows, and ends within the bytes. */
  ghost predicate FrontFits(b: bytes) {
    && 4 <= |b|
    && (Registered(U16At(b, 0)) ==>
          LengthOk(U16At(b, 0), U16At(b, 2)) && 4 + U16At(b, 2) <= |b| && !WrappedText(b))
  }

  /** The distance to the next attribute: padded for registered types only. */
  ghost function Step(b: bytes): (n: nat)
    requires 4 <= |b|
    ensures 4 <= n
  {
    if Registered(U16At(b, 0)) then TlvSize(U16At(b, 2)) else U16At(b, 2) + 4
  }

  /** An attribute starts at offset `k`, and all before it fit. */
  ghost predicate Starts(b: bytes, k: nat)
    decreases k
  {
    k == 0 || (FrontFits(b) && Step(b) <= k && Step(b) <= |b| && Starts(b[Step(b)..], k - Step(b)))
  }

  /** The ERROR-CODE attribute at the front announces more bytes than there are. */
  ghost predicate LongErrorCode(b: bytes) {
    8 <= |b| && U16At(b, 0) == 0x0009 && U16At(b, 2) > |b| - 4
  }

  lemma DecodeAllStep(b: bytes)
    requires FrontFits(b)
    ensures DecodeAll(b).Overrun? <==> Step(b) <= |b| && DecodeAll(b[Step(b)..]).Overrun?
  {
    if Registered(U16At(b, 0)) {
      DecodedSize(U16At(b, 0), b[4..4 + U16At(b, 2)]);
    }
    assert DecodeAll([]) == Ok([]);
  }

  lemma DecodeAllStuck(b: bytes)
    requires !FrontFits(b) && DecodeAll(b).Overrun?
    ensures LongErrorCode(b) || WrappedText(b)
  {
    assert Registered(U16At(b, 0)) && DecodeOne(b).Overrun?;
  }

  ghost predicate OverrunsAt(b: bytes, k: nat) {
    k <= |b| && Starts(b, k) && (LongErrorCode(b[k..]) || WrappedText(b[k..]))
  }

  lemma OverrunsLater(b: bytes, k: nat)
    requires FrontFits(b) && Step(b) <= |b|
    ensures OverrunsAt(b[Step(b)..], k) <==> OverrunsAt(b, Step(b) + k)
  {
    assert Step(b) + k <= |b| ==> b[Step(b) + k..] == b[Step(b)..][k..];
  }

  /** The decoder overruns exactly when some attribute the walk reaches is such an ERROR-CODE or such
      a text. */
  lemma {:induction false} OverrunIff(b: bytes)
    ensures DecodeAll(b).Overrun? <==> exists k :: OverrunsAt(b, k)
    decreases |b|
  {
    if DecodeAll(b).Overrun? {
      FindOverrun(b);
    } else if k :| OverrunsAt(b, k) {
      OverrunFound(b, k);
    }
  }

  lemma {:induction false} FindOverrun(b: bytes)
    requires DecodeAll(b).Overrun?
    ensures exists k :: OverrunsAt(b, k)
    decreases |b|
  {
    if !FrontFits(b) {
      DecodeAllStuck(b);
      assert b[0..] == b;
      assert OverrunsAt(b, 0);
    } else {
      DecodeAllStep(b);
      FindOverrun(b[Step(b)..]);
      var k :| OverrunsAt(b[Step(b)..], k);
      OverrunsLater(b, k);
    }
  }

  lemma {:induction false} OverrunFound(b: bytes, k: nat)
    requires OverrunsAt(b, k)
    ensures DecodeAll(b).Overrun?
    decreases k
  {
    if k == 0 {
      assert b[0..] == b;
    } else {
      OverrunsLater(b, k - Step(b));
      OverrunFound(b[Step(b)..], k - Step(b));
      DecodeAllStep(b);
    }
  }
}
