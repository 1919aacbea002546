/** STUN messages as values: the header, the attribute list and the raw bytes, and the functions
    that keep the three in step (sections 5 and 14 of RFC 8489). */
module StunMessage {
  import opened Wrappers
  import opened Bytes
  import opened StunAttributes

  datatype Header = Header(typ: nat, length: nat, cookie: nat, txID: bytes)

  const MAGIC_COOKIE := 0x2112A442

  ghost predicate HeaderOk(h: Header) {
    h.typ < 0x1_0000 && h.length < 0x1_0000 && h.cookie < Power(256, 4) && |h.txID| == 12
  }

  function EncodeHeader(h: Header): bytes
    requires h.typ < 0x1_0000 && h.length < 0x1_0000
  {
    U16(h.typ) + U16(h.length) + BigEndian(h.cookie, 4) + h.txID
  }

  function DecodeHeader(b: bytes): Header
    requires 20 <= |b|
  {
    Header(U16At(b, 0), U16At(b, 2), FromBigEndian(b[4..8]), b[8..20])
  }

  datatype Msg = Msg(header: Header, attrs: seq<Attr>, raw: bytes, fingerprint: bool)

  /** The three views agree: the raw bytes are the header and the attributes, and the length
      field counts the attribute bytes, modulo its 16 bits. */
  ghost predicate InStep(m: Msg) {
    && HeaderOk(m.header) && AllOk(m.attrs)
    && m.raw == EncodeHeader(m.header) + EncodeAll(m.attrs)
    && m.header.length == |EncodeAll(m.attrs)| % 0x1_0000
  }

  /** What an attribute list may go on with. */
  predicate MayFollow(last: Attr, a: Attr) {
    match last
    case Fingerprint(_) => false
    case MessageIntegrity(_) => a.MessageIntegritySHA256? || a.Fingerprint?
    case MessageIntegritySHA256(_) => a.Fingerprint?
    case _ => true
  }

  ghost predicate Ordered(attrs: seq<Attr>) {
    forall i, j :: 0 <= i < j < |attrs| ==> MayFollow(attrs[i], attrs[j])
  }

  /** A message built by appends. */
  ghost predicate Built(m: Msg) {
    InStep(m) && Ordered(m.attrs)
  }

  function SetLength(raw: bytes, n: nat): (r: bytes)
    requires 4 <= |raw| && n < 0x1_0000
    ensures |r| == |raw|
  {
    raw[..2] + U16(n) + raw[4..]
  }

  // ----- Appending

  function UnsafeAppend(m: Msg, a: Attr): Msg
    requires 4 <= |m.raw|
  {
    var n := (m.header.length + Size(a)) % 0x1_0000;
    m.(attrs := m.attrs + [a], header := m.header.(length := n), raw := SetLength(m.raw + Encode(a), n))
  }

  function Append(m: Msg, a: Attr): Result<Msg>
    requires 4 <= |m.raw|
  {
    if m.attrs != [] && !MayFollow(m.attrs[|m.attrs| - 1], a) then Failure
    else Success(UnsafeAppend(m, a))
  }

  /** An attribute is refused exactly behind one that closes the list to it: FINGERPRINT closes it to all,
      the SHA-256 digest to all but FINGERPRINT, the SHA-1 digest to all but those two. */
  lemma AppendIff(m: Msg, a: Attr)
    requires 4 <= |m.raw|
    ensures Append(m, a).Failure? <==>
            m.attrs != [] &&
            var last := m.attrs[|m.attrs| - 1];
            last.Fingerprint? || (!a.Fingerprint? && (last.MessageIntegritySHA256? ||
                                                      (last.MessageIntegrity? && !a.MessageIntegritySHA256?)))
    ensures Append(m, a).Success? ==> Append(m, a).value.attrs == m.attrs + [a]
  {
  }

  lemma SetLengthOfHeader(h: Header, n: nat, tail: bytes)
    requires HeaderOk(h) && n < 0x1_0000
    ensures SetLength(EncodeHeader(h) + tail, n) == EncodeHeader(h.(length := n)) + tail
  {
  }

  lemma SetLengthAfter(h: Header, body: bytes, block: bytes, n: nat)
    requires HeaderOk(h) && n < 0x1_0000
    ensures SetLength(EncodeHeader(h) + body + block, n) == EncodeHeader(h.(length := n)) + (body + block)
  {
    assert EncodeHeader(h) + body + block == EncodeHeader(h) + (body + block);
    SetLengthOfHeader(h, n, body + block);
  }

  lemma WrapSum(x: nat, y: nat)
    ensures (x % 0x1_0000 + y) % 0x1_0000 == (x + y) % 0x1_0000
  {
  }

  /** Appending an attribute keeps the three views in step. */
  lemma AppendInStep(m: Msg, a: Attr)
    requires InStep(m) && AttrOk(a)
    ensures InStep(UnsafeAppend(m, a)) && EncodeAll(m.attrs + [a]) == EncodeAll(m.attrs) + Encode(a)
  {
    FlatMapSnoc(Encode, m.attrs, a);
    AllOkSnoc(m.attrs, a);
    WrapSum(|EncodeAll(m.attrs)|, Size(a));
    SetLengthAfter(m.header, EncodeAll(m.attrs), Encode(a), UnsafeAppend(m, a).header.length);
  }

  lemma AppendBuilt(m: Msg, a: Attr)
    requires Built(m) && AttrOk(a) && Append(m, a).Success?
    ensures Built(Append(m, a).value)
  {
    AppendInStep(m, a);
  }

  /** The length field is a multiple of four. */
  lemma LengthAligned(m: Msg)
    requires InStep(m)
    ensures m.header.length % 4 == 0 && |m.raw| % 4 == 0
  {
    hide AllOk, Value, FlatMap;
    FlatMapAligned(Encode, m.attrs);
  }

  function AppendAll(m: Msg, attrs: seq<Attr>): Result<Msg>
    requires 4 <= |m.raw|
    decreases |attrs|
  {
    if attrs == [] then Success(m) else
    var m' :- Append(m, attrs[0]);
    AppendAll(m', attrs[1..])
  }

  function New(typ: nat, attrs: seq<Attr>, txID: bytes): Result<Msg>
    requires typ < 0x1_0000
  {
    var h := Header(typ, 0, MAGIC_COOKIE, txID);
    AppendAll(Msg(h, [], EncodeHeader(h), false), attrs)
  }

  // ----- Decoding

  function Decode(b: bytes): Decoded<Msg> {
    if |b| < 20 then Bad else
    var h := DecodeHeader(b);
    if |b| < 20 + h.length then Bad else
    match DecodeAll(b[20..20 + h.length])
    case Ok(attrs) => Ok(Msg(h, attrs, b[..20 + h.length], false))
    case Bad => Bad
    case Overrun => Overrun
  }

  lemma HeaderRoundTrip(h: Header, tail: bytes)
    requires HeaderOk(h)
    ensures |EncodeHeader(h)| == 20 && DecodeHeader(EncodeHeader(h) + tail) == h
  {
    var b := EncodeHeader(h) + tail;
    assert b[2..][..2] == U16(h.length) && b[4..8] == BigEndian(h.cookie, 4) && b[8..20] == h.txID;
    BigEndianRoundTrip(h.cookie, 4);
  }

  /** Type, length and magic cookie in network order, then the transaction ID. */
  lemma HeaderOnWire(h: Header)
    requires HeaderOk(h)
    ensures var b := EncodeHeader(h);
            && |b| == 20 && U16At(b, 0) == h.typ && U16At(b, 2) == h.length
            && FromBigEndian(b[4..8]) == h.cookie && b[8..] == h.txID
            && (h.cookie == MAGIC_COOKIE ==> b[4..8] == [0x21, 0x12, 0xA4, 0x42])
  {
    var b := EncodeHeader(h);
    assert b[4..8] == BigEndian(h.cookie, 4);
    BigEndianRoundTrip(h.cookie, 4);
    assert BigEndian(0x21, 1) == [0x21] && BigEndian(0x2112, 2) == [0x21, 0x12];
    assert BigEndian(0x2112A4, 3) == [0x21, 0x12, 0xA4];
  }

  /** Decoding the raw bytes, whatever follows them, gives back the message. */
  lemma DecodeRaw(m: Msg, tail: bytes)
    requires InStep(m) && |EncodeAll(m.attrs)| < 0x1_0000
    ensures Decode(m.raw + tail) == Ok(m.(fingerprint := false))
  {
    hide EncodeAll, AllOk, DecodeAll, EncodeHeader, DecodeHeader;
    var b := m.raw + tail;
    assert b == EncodeHeader(m.header) + (EncodeAll(m.attrs) + tail);
    HeaderRoundTrip(m.header, EncodeAll(m.attrs) + tail);
    assert b[20..20 + m.header.length] == EncodeAll(m.attrs);
    assert b[..20 + m.header.length] == m.raw;
    DecodeAllEncodeAll(m.attrs);
  }

  lemma DecodeOwnRaw(m: Msg)
    requires InStep(m) && |EncodeAll(m.attrs)| < 0x1_0000
    ensures Decode(m.raw) == Ok(m.(fingerprint := false))
  {
    DecodeRaw(m, []);
    assert m.raw + [] == m.raw;
  }
}
