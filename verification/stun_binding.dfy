/** The Binding exchange between two agents with short-term credentials (section 9.1 of RFC 8489)
    and its ICE use (section 7 of RFC 8445). */
module StunBinding {
  import opened Wrappers
  import opened Bytes
  import opened StunAttributes
  import opened StunMessage
  import opened StunIntegrity

  // ----- Message types

  const BINDING_REQUEST := 0x0001
  const BINDING_RESPONSE := 0x0101
  const METHOD_BINDING: bv16 := 0x0001
  const CLASS_REQUEST: bv16 := 0
  const CLASS_SUCCESS: bv16 := 2

  function MethodOf(t: bv16): bv16 {
    ((t & 0x3E00) >> 2) | ((t & 0x00E0) >> 1) | (t & 0x000F)
  }

  function ClassOf(t: bv16): bv16 {
    ((t & 0x0100) >> 7) | ((t & 0x0010) >> 4)
  }

  function EncodeType(m: bv16, cls: bv16): bv16 {
    ((m & 0x1F80) << 2) | ((m & 0x0070) << 1) | (m & 0x000F) | ((cls & 0x0002) << 7) | ((cls & 0x0001) << 4)
  }

  /** Twelve-bit method and two-bit class are recovered from the message type they encode to, and
      every message type with its top two bits clear is the encoding of its method and class. */
  lemma TypeRoundTrip(m: bv16, cls: bv16, t: bv16)
    ensures m < 0x1000 && cls < 4 ==> MethodOf(EncodeType(m, cls)) == m && ClassOf(EncodeType(m, cls)) == cls
    ensures t & 0xC000 == 0 <==> EncodeType(MethodOf(t), ClassOf(t)) == t
  {
  }

  /** The message type has the expected method and one of the allowed classes. */
  predicate TypeAllowed(typ: nat, m: bv16, classes: set<bv16>) {
    typ < 0x1_0000 && MethodOf(typ as bv16) == m && ClassOf(typ as bv16) in classes
  }

  // ----- XOR-MAPPED-ADDRESS

  datatype Endpoint = Endpoint(ip: bytes, port: nat)

  ghost predicate EndpointOk(e: Endpoint) {
    (|e.ip| == 4 || |e.ip| == 16) && e.port < 0x1_0000
  }

  /** The four-byte form of an address: IPv4, or IPv4 mapped into IPv6. */
  function To4(ip: bytes): Option<bytes> {
    if |ip| == 4 then Some(ip)
    else if |ip| == 16 && ip[..12] == [0, 0, 0, 0, 0, 0, 0, 0, 0, 0, 255, 255] then Some(ip[12..])
    else None
  }

  /** The address a peer reads back: the four-byte form where there is one. */
  function Canonical(e: Endpoint): Endpoint {
    match To4(e.ip) case Some(ip4) => e.(ip := ip4) case None => e
  }

  function CookieBytes(): bytes {
    [0x21, 0x12, 0xA4, 0x42]
  }

  /** Byte-wise exclusive or with the front of a mask. */
  function XorMask(s: bytes, mask: bytes): (r: bytes)
    requires |s| <= |mask|
    ensures |r| == |s|
  {
    seq(|s|, i requires 0 <= i < |s| => Xor8(s[i], mask[i]))
  }

  lemma XorMaskTwice(s: bytes, mask: bytes)
    requires |s| <= |mask|
    ensures XorMask(XorMask(s, mask), mask) == s
  {
    forall i | 0 <= i < |s|
      ensures XorMask(XorMask(s, mask), mask)[i] == s[i]
    {
      Xor8Twice(s[i], mask[i]);
    }
  }

  /** Bit by bit, it is one exactly where address and mask differ. */
  lemma XorMaskIsXor(s: bytes, mask: bytes)
    requires |s| <= |mask|
    ensures IsXor(s, mask, XorMask(s, mask))
  {
    hide Bit, XorBits;
    forall i, k: nat | 0 <= i < |s| && k < 8
      ensures Bit(XorMask(s, mask)[i], k) <==> Bit(s[i], k) != Bit(mask[i], k)
    {
      XorBitsAt(s[i], mask[i], 8, k);
    }
  }

  /** Fills a buffer byte by byte with the exclusive or of address and mask. */
  method XorInto(s: bytes, mask: bytes) returns (r: bytes)
    requires |s| <= |mask|
    ensures r == XorMask(s, mask) && XorMask(r, mask) == s && IsXor(s, mask, r)
  {
    hide Bit, XorBits;
    var buf := new byte[|s|];
    for i := 0 to |s|
      invariant forall k :: 0 <= k < i ==> buf[k] == Xor8(s[k], mask[k])
    {
      buf[i] := Xor8(s[i], mask[i]);
    }
    r := buf[..];
    XorMaskTwice(s, mask);
    XorMaskIsXor(s, mask);
  }

  /** The value of an XOR-MAPPED-ADDRESS attribute for the endpoint. */
  function XorAddress(e: Endpoint, txID: bytes): bytes
    requires e.port < 0x1_0000 && |txID| == 12 && |e.ip| <= 16
  {
    var ip := Canonical(e).ip;
    var family: byte := if To4(e.ip).Some? then 1 else 2;
    [0, family] + XorMask(U16(e.port), CookieBytes()) + XorMask(ip, CookieBytes() + txID)
  }

  function ReadXorAddress(v: bytes, txID: bytes): Result<Endpoint>
    requires |txID| == 12
  {
    if |v| < 8 then Failure else
    var port := U16At(XorMask(v[2..4], CookieBytes()), 0);
    if v[1] == 1 then Success(Endpoint(XorMask(v[4..8], CookieBytes()), port))
    else if v[1] == 2 then
      if |v| < 20 then Failure else Success(Endpoint(XorMask(v[4..20], CookieBytes() + txID), port))
    else Failure
  }

  lemma ShortMask(s: bytes, mask: bytes, more: bytes)
    requires |s| <= |mask|
    ensures XorMask(s, mask + more) == XorMask(s, mask)
  {
  }

  lemma AddressParts(v: bytes, family: byte, port: bytes, ip: bytes)
    requires v == [0, family] + port + ip && |port| == 2
    ensures v[1] == family && v[2..4] == port && v[4..4 + |ip|] == ip
  {
  }

  /** The mask starts with the magic cookie as it is in every header. */
  lemma CookieOnWire()
    ensures CookieBytes() == BigEndian(MAGIC_COOKIE, 4)
  {
    assert BigEndian(0x21, 1) == [0x21] && BigEndian(0x2112, 2) == [0x21, 0x12];
    assert BigEndian(0x2112A4, 3) == [0x21, 0x12, 0xA4];
  }

  /** The value is, after a zero byte and the family, port and address, each differing from the plain
      one in the bits of the mask: the cookie, and for a long address the transaction ID. */
  ghost predicate Masks(e: Endpoint, txID: bytes, v: bytes)
    requires e.port < 0x1_0000
  {
    var mask := BigEndian(0x2112A442, 4) + txID;
    && |v| == 4 + |e.ip| && v[..2] == [0, if |e.ip| == 4 then 1 else 2]
    && IsXor(U16(e.port), mask, v[2..4]) && IsXor(e.ip, mask, v[4..])
  }

  lemma XorAddressMasks(e: Endpoint, txID: bytes)
    requires EndpointOk(e) && |txID| == 12
    ensures Masks(Canonical(e), txID, XorAddress(e, txID))
  {
    hide XorMask, IsXor;
    CookieOnWire();
    var ip, v, mask := Canonical(e).ip, XorAddress(e, txID), CookieBytes() + txID;
    var port := XorMask(U16(e.port), CookieBytes());
    ShortMask(U16(e.port), CookieBytes(), txID);
    XorMaskIsXor(U16(e.port), mask);
    XorMaskIsXor(ip, mask);
    AddressParts(v, v[1], port, XorMask(ip, mask));
    assert v[4..] == v[4..4 + |ip|] && v[..2] == [0, v[1]];
  }

  /** An IPv4 address in its IPv6 form is read back in its own form, any other address as it is. */
  lemma CanonicalIs(ip: bytes, port: nat)
    ensures |ip| == 4 ==> Canonical(Endpoint(Zeros(10) + [255, 255] + ip, port)) == Endpoint(ip, port)
    ensures |ip| == 4 || !(Zeros(10) + [255, 255] <= ip) ==> Canonical(Endpoint(ip, port)) == Endpoint(ip, port)
  {
    assert Zeros(10) + [255, 255] == [0, 0, 0, 0, 0, 0, 0, 0, 0, 0, 255, 255];
  }

  /** The address survives the attribute, for both families and every port. */
  lemma XorAddressRoundTrip(e: Endpoint, txID: bytes)
    requires EndpointOk(e) && |txID| == 12
    ensures AttrOk(XorMappedAddress(XorAddress(e, txID)))
    ensures ReadXorAddress(XorAddress(e, txID), txID) == Success(Canonical(e))
  {
    var ip, v := Canonical(e).ip, XorAddress(e, txID);
    var port, mapped := XorMask(U16(e.port), CookieBytes()), XorMask(ip, CookieBytes() + txID);
    AddressParts(v, v[1], port, mapped);
    XorMaskTwice(U16(e.port), CookieBytes());
    XorMaskTwice(ip, CookieBytes() + txID);
    if |ip| == 4 {
      ShortMask(mapped, CookieBytes(), txID);
    }
  }

  /** Builds the attribute value: the port is masked with the cookie, the address with the cookie and,
      beyond its first four bytes, with the transaction. */
  method CreateXorMappedAddress(e: Endpoint, txID: bytes) returns (v: bytes)
    requires EndpointOk(e) && |txID| == 12
    ensures v == XorAddress(e, txID) && ReadXorAddress(v, txID) == Success(Canonical(e))
    ensures Masks(Canonical(e), txID, v)
  {
    hide XorMask, ReadXorAddress, Masks;
    XorAddressRoundTrip(e, txID);
    XorAddressMasks(e, txID);
    var ip := Canonical(e).ip;
    var family: byte := if To4(e.ip).Some? then 1 else 2;
    var port := XorInto(U16(e.port), CookieBytes());
    var mapped;
    if |ip| == 4 {
      mapped := XorInto(ip, CookieBytes());
      ShortMask(ip, CookieBytes(), txID);
    } else {
      mapped := XorInto(ip, CookieBytes() + txID);
    }
    v := [0, family] + port + mapped;
  }

  // ----- Options

  datatype Auth = Auth(username: bytes, password: bytes, realm: bytes, nonce: bytes)

  datatype Ice = Ice(priority: nat, useCandidate: bool, controlling: nat, controlled: nat)

  datatype Options = Options(auth: Option<Auth>, ice: Option<Ice>, requireFingerprint: bool)

  function AuthAttrs(o: Options): seq<Attr> {
    match o.auth
    case None => []
    case Some(a) =>
      (if a.username != [] then [Username(a.username)] else []) +
      (if a.realm != [] then [Realm(a.realm)] else []) +
      (if a.nonce != [] then [Nonce(a.nonce)] else [])
  }

  function IceAttrs(o: Options): seq<Attr> {
    match o.ice
    case None => []
    case Some(i) =>
      (if i.useCandidate then [UseCandidate] else []) +
      (if i.controlling > 0 then [Controlling(i.controlling)] else []) +
      (if i.controlled > 0 then [Controlled(i.controlled)] else []) +
      (if i.priority > 0 then [Priority(i.priority)] else [])
  }

  /** The attributes credentials stand for: user name, realm and nonce, where they are not empty. */
  predicate OfAuth(auth: Option<Auth>, x: Attr) {
    auth.Some? &&
    (|| (x == Username(auth.value.username) && auth.value.username != [])
     || (x == Realm(auth.value.realm) && auth.value.realm != [])
     || (x == Nonce(auth.value.nonce) && auth.value.nonce != []))
  }

  /** The attributes ICE settings stand for: the mark, and the numbers that are set. */
  predicate OfIce(ice: Option<Ice>, x: Attr) {
    ice.Some? &&
    (|| (x == UseCandidate && ice.value.useCandidate)
     || (x == Controlling(ice.value.controlling) && ice.value.controlling > 0)
     || (x == Controlled(ice.value.controlled) && ice.value.controlled > 0)
     || (x == Priority(ice.value.priority) && ice.value.priority > 0))
  }

  lemma AuthIn(o: Options, x: Attr)
    ensures x in AuthAttrs(o) <==> OfAuth(o.auth, x)
  {
  }

  lemma IceIn(o: Options, x: Attr)
    ensures x in IceAttrs(o) <==> OfIce(o.ice, x)
  {
  }

  /** A message sent with options holds exactly their attributes, besides its own. */
  lemma OptionsHeld(o: Options)
    ensures forall x :: x in AuthAttrs(o) + IceAttrs(o) <==> OfAuth(o.auth, x) || OfIce(o.ice, x)
  {
    hide AuthAttrs, IceAttrs, OfAuth, OfIce;
    forall x: Attr
      ensures x in AuthAttrs(o) + IceAttrs(o) <==> OfAuth(o.auth, x) || OfIce(o.ice, x)
    {
      AuthIn(o, x);
      IceIn(o, x);
    }
  }

  ghost predicate OptionsOk(o: Options) {
    && (o.auth.Some? ==> |o.auth.value.username| < TEXT_LIMIT && |o.auth.value.realm| < TEXT_LIMIT
                         && |o.auth.value.nonce| < TEXT_LIMIT)
    && (o.ice.Some? ==> o.ice.value.priority < Power(256, 4) && o.ice.value.controlling < Power(256, 8)
                        && o.ice.value.controlled < Power(256, 8))
  }

  // ----- Building and checking messages

  /** A message with the given attributes, protected with the options' password if there is one,
      and marked for a FINGERPRINT if the options ask for it. */
  function Seal(c: Crypto, typ: nat, attrs: seq<Attr>, txID: bytes, o: Options): Result<Msg>
    requires typ < 0x1_0000 && |txID| == 12
  {
    var m :- New(typ, attrs, txID);
    if 20 > |m.raw| then Failure else
    var m' :- if o.auth.Some? && o.auth.value.password != [] then AddIntegrity(c, m, o.auth.value.password) else Success(m);
    Success(m'.(fingerprint := o.requireFingerprint))
  }

  function BuildRequest(c: Crypto, o: Options, txID: bytes): Result<Msg>
    requires |txID| == 12
  {
    Seal(c, BINDING_REQUEST, AuthAttrs(o) + IceAttrs(o), txID, o)
  }

  predicate IsUsername(a: Attr) { a.Username? }

  predicate IsXorMapped(a: Attr) { a.XorMappedAddress? }

  predicate IsMapped(a: Attr) { a.MappedAddress? }

  function GotUsername(m: Msg): bytes {
    match First(m.attrs, IsUsername)
    case Success(Username(u)) => u
    case _ => []
  }

  function ValidateAuth(c: Crypto, m: Msg, expected: Option<Auth>): bool
    requires 20 <= |m.raw|
  {
    if expected.None? || expected.value.password == [] then true else
    var got := c.prepare(GotUsername(m));
    && got != [] && got == c.prepare(expected.value.username)
    && VerifyIntegrity(c, m, expected.value.password) == Success(true)
  }

  function Validate(c: Crypto, m: Msg, o: Options): bool
    requires 20 <= |m.raw|
  {
    && m.header.typ < 0x4000 && m.header.cookie == MAGIC_COOKIE && m.header.length % 4 == 0
    && ValidateAuth(c, m, o.auth)
    && (o.requireFingerprint ==> VerifyFingerprint(c, m))
  }

  /** Validates a request with `check` and answers it with `o`. */
  function ProcessRequest(c: Crypto, m: Msg, remote: Endpoint, check: Options, o: Options): Result<Msg>
    requires 20 <= |m.raw| && |m.header.txID| == 12 && remote.port < 0x1_0000 && |remote.ip| <= 16
  {
    if !TypeAllowed(m.header.typ, METHOD_BINDING, {CLASS_REQUEST}) || !Validate(c, m, check) then Failure else
    var xor := XorMappedAddress(XorAddress(remote, m.header.txID));
    Seal(c, BINDING_RESPONSE, AuthAttrs(o) + IceAttrs(o) + [xor], m.header.txID, o)
  }

  /** Reads a plain address. The lengths are not checked, so the slices may reach past the value. */
  function ReadAddress(v: bytes): Decoded<Endpoint> {
    if |v| < 4 then Overrun
    else if v[1] == 1 then if |v| < 8 then Overrun else Ok(Endpoint(v[4..8], U16At(v, 2)))
    else if v[1] == 2 then if |v| < 20 then Overrun else Ok(Endpoint(v[4..20], U16At(v, 2)))
    else Bad
  }

  function FromResult<T>(r: Result<T>): Decoded<T> {
    match r case Success(x) => Ok(x) case Failure => Bad
  }

  /** The mapped address: XOR-MAPPED-ADDRESS if there is one, else MAPPED-ADDRESS. */
  function MappedAddrPort(m: Msg): Decoded<Endpoint>
    requires |m.header.txID| == 12
  {
    match First(m.attrs, IsXorMapped)
    case Success(XorMappedAddress(v)) => FromResult(ReadXorAddress(v, m.header.txID))
    case _ =>
      match First(m.attrs, IsMapped)
      case Success(MappedAddress(v)) => ReadAddress(v)
      case _ => Bad
  }

  function ProcessResponse(c: Crypto, m: Msg, txID: bytes, check: Options): Decoded<Endpoint>
    requires 20 <= |m.raw| && |m.header.txID| == 12
  {
    if !Validate(c, m, check) || m.header.txID != txID then Bad
    else if !TypeAllowed(m.header.typ, METHOD_BINDING, {CLASS_SUCCESS}) then Bad
    else MappedAddrPort(m)
  }

  // ----- The exchange

  /** Attributes that can be appended in any order. */
  ghost predicate Plain(attrs: seq<Attr>) {
    AllOk(attrs) && forall i :: 0 <= i < |attrs| ==> !Closing(attrs[i])
  }

  lemma AppendPlain(m: Msg, a: Attr)
    requires Built(m) && Plain(m.attrs) && AttrOk(a)
    ensures Append(m, a) == Success(UnsafeAppend(m, a)) && Built(UnsafeAppend(m, a))
    ensures !Closing(a) ==> Plain(UnsafeAppend(m, a).attrs)
  {
    assert Append(m, a) == Success(UnsafeAppend(m, a));
    AppendBuilt(m, a);
  }

  /** `r` is a built message with the header of `m` and the given attributes. */
  ghost predicate Holds(r: Msg, h: Header, attrs: seq<Attr>) {
    Built(r) && r.attrs == attrs && r.header == h.(length := r.header.length)
  }

  lemma {:induction false} AppendAllPlain(m: Msg, attrs: seq<Attr>)
    requires Built(m) && Plain(m.attrs) && Plain(attrs)
    ensures AppendAll(m, attrs).Success? && Holds(AppendAll(m, attrs).value, m.header, m.attrs + attrs)
    decreases attrs
  {
    if attrs == [] {
      assert m.attrs + attrs == m.attrs;
    } else {
      var m' := UnsafeAppend(m, attrs[0]);
      AppendPlain(m, attrs[0]);
      AppendAllPlain(m', attrs[1..]);
      SnocCons(m.attrs, attrs);
    }
  }

  /** A new message holds exactly the given attributes. */
  lemma NewBuilt(typ: nat, attrs: seq<Attr>, txID: bytes)
    requires typ < 0x1_0000 && |txID| == 12 && Plain(attrs)
    ensures var r := New(typ, attrs, txID);
            r.Success? && Holds(r.value, Header(typ, 0, MAGIC_COOKIE, txID), attrs)
  {
    assert Power(256, 4) == 0x1_0000_0000;
    var h := Header(typ, 0, MAGIC_COOKIE, txID);
    AppendAllPlain(Msg(h, [], EncodeHeader(h), false), attrs);
    assert [] + attrs == attrs;
  }

  /** The digest that protects the attributes. */
  function Seals(c: Crypto, h: Header, attrs: seq<Attr>, password: bytes): Attr
    requires h.typ < 0x1_0000
  {
    MessageIntegrity(Signed(c, h, attrs, password))
  }

  /** Sealing with a password never fails, and protects exactly the given attributes. */
  lemma SealIs(c: Crypto, typ: nat, attrs: seq<Attr>, txID: bytes, o: Options)
    requires typ < 0x1_0000 && |txID| == 12 && Plain(attrs)
    requires o.auth.Some? && o.auth.value.password != []
    ensures var h := Header(typ, 0, MAGIC_COOKIE, txID);
            var m := Seal(c, typ, attrs, txID, o);
            && m.Success? && m.value.fingerprint == o.requireFingerprint
            && Holds(m.value, h, attrs + [Seals(c, h, attrs, o.auth.value.password)])
  {
    NewBuilt(typ, attrs, txID);
    var m, pw := New(typ, attrs, txID).value, o.auth.value.password;
    AppendPlain(m, MessageIntegrity(ZERO_DIGEST));
    AddIntegrityIs(c, m, pw);
    AddIntegrityProtects(c, m, pw);
    SignedIgnoresLength(c, m.header, 0, attrs, pw);
  }

  /** What a peer decodes from the bytes of a message. */
  ghost predicate Arrives(c: Crypto, m: Msg, r: Msg) {
    && 20 <= |m.raw| && Written(c, m).Success? && Decode(Written(c, m).value) == Ok(r)
    && 20 <= |r.raw| && |r.header.txID| == 12
  }

  /** The message with its FINGERPRINT arrives, and the FINGERPRINT verifies. */
  lemma ArrivesWith(c: Crypto, m: Msg)
    requires Built(m) && m.fingerprint
    requires AddFingerprint(c, m).Success? && |EncodeAll(AddFingerprint(c, m).value.attrs)| < 0x1_0000
    ensures var r := AddFingerprint(c, m).value.(fingerprint := false);
            Built(r) && Arrives(c, m, r) && VerifyFingerprint(c, r)
  {
    AddFingerprintBuilt(c, m);
    FingerprintVerifies(c, m);
    DecodeOwnRaw(AddFingerprint(c, m).value);
    MarkIrrelevant(c, AddFingerprint(c, m).value, false);
  }

  lemma PlusFingerprint(attrs: seq<Attr>, crc: nat)
    ensures |EncodeAll(attrs + [Fingerprint(crc)])| == |EncodeAll(attrs)| + 8
  {
    FlatMapSnoc(Encode, attrs, Fingerprint(crc));
  }

  lemma FreshFingerprint(c: Crypto, m: Msg) returns (a: Attr)
    requires Built(m) && (m.attrs != [] ==> !m.attrs[|m.attrs| - 1].Fingerprint?)
    ensures a.Fingerprint? && AddFingerprint(c, m) == Success(UnsafeAppend(m, a))
    ensures |EncodeAll(UnsafeAppend(m, a).attrs)| == |EncodeAll(m.attrs)| + 8
  {
    AddFingerprintIs(c, m);
    a := Fingerprint(CalculateFingerprint(c, m.raw));
    PlusFingerprint(m.attrs, a.crc);
  }

  /** A built message without FINGERPRINT, marked for one, arrives with it. */
  lemma WrittenArrives(c: Crypto, m: Msg, h: Header, attrs: seq<Attr>) returns (r: Msg, a: Attr)
    requires Holds(m, h, attrs) && m.fingerprint && |EncodeAll(attrs)| + 8 < 0x1_0000
    requires attrs != [] ==> !attrs[|attrs| - 1].Fingerprint?
    ensures Arrives(c, m, r) && Holds(r, h, attrs + [a]) && a.Fingerprint? && VerifyFingerprint(c, r)
  {
    a := FreshFingerprint(c, m);
    ArrivesWith(c, m);
    r := UnsafeAppend(m, a).(fingerprint := false);
  }
}
