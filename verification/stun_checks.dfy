/** What a received message has to be to pass the checks, said of every message, built here or not. */
module StunChecks {
  import opened Wrappers
  import opened Bytes
  import opened StunAttributes
  import opened StunMessage
  import opened StunIntegrity
  import opened StunBinding

  // ----- The first attribute of a kind

  /** The attribute at `i` is the first to pass the test. */
  ghost predicate IsFirst(attrs: seq<Attr>, test: Attr -> bool, i: nat) {
    i < |attrs| && test(attrs[i]) && forall j :: 0 <= j < i ==> !test(attrs[j])
  }

  lemma {:induction false} FirstIff(attrs: seq<Attr>, test: Attr -> bool)
    ensures First(attrs, test).Failure? <==> forall i :: 0 <= i < |attrs| ==> !test(attrs[i])
    ensures forall i: nat :: IsFirst(attrs, test, i) ==> First(attrs, test) == Success(attrs[i])
  {
    if attrs != [] {
      var rest := attrs[1..];
      FirstIff(rest, test);
      forall i: nat | IsFirst(attrs, test, i)
        ensures First(attrs, test) == Success(attrs[i])
      {
        if 0 < i {
          assert IsFirst(rest, test, i - 1);
        }
      }
      if !test(attrs[0]) && forall i :: 0 <= i < |rest| ==> !test(rest[i]) {
        assert forall i :: 0 < i < |attrs| ==> attrs[i] == rest[i - 1];
      }
    }
  }

  lemma {:induction false} FirstExists(attrs: seq<Attr>, test: Attr -> bool) returns (i: nat)
    requires First(attrs, test).Success?
    ensures IsFirst(attrs, test, i)
  {
    if test(attrs[0]) {
      i := 0;
    } else {
      i := FirstExists(attrs[1..], test);
      i := i + 1;
    }
  }

  // ----- Short-term credentials

  /** The user name the message comes with: that of its first USERNAME, or the empty one. */
  ghost predicate Gives(m: Msg, user: bytes) {
    || (exists i: nat :: IsFirst(m.attrs, IsUsername, i) && m.attrs[i] == Username(user))
    || (user == [] && forall i :: 0 <= i < |m.attrs| ==> !m.attrs[i].Username?)
  }

  /** There is a MESSAGE-INTEGRITY, and the first one holds the digest for the password. */
  ghost predicate Digested(c: Crypto, m: Msg, password: bytes)
    requires 20 <= |m.raw|
  {
    exists i: nat :: IsFirst(m.attrs, IsIntegrity, i) && m.attrs[i] == MessageIntegrity(Mac(c, m.raw, password))
  }

  lemma GivesIs(m: Msg, user: bytes)
    ensures Gives(m, user) <==> GotUsername(m) == user
  {
    FirstIff(m.attrs, IsUsername);
    if First(m.attrs, IsUsername).Success? {
      var i := FirstExists(m.attrs, IsUsername);
    }
  }

  lemma DigestedIs(c: Crypto, m: Msg, password: bytes)
    requires 20 <= |m.raw| && password != []
    ensures Digested(c, m, password) <==> VerifyIntegrity(c, m, password) == Success(true)
  {
    hide Mac;
    FirstIff(m.attrs, IsIntegrity);
    if First(m.attrs, IsIntegrity).Success? {
      var i := FirstExists(m.attrs, IsIntegrity);
    }
  }

  /** A message is authentic for the credentials: they ask for nothing, or the user names are equal
      after preparation and not empty, and the digest is the one for the password. */
  ghost predicate Authentic(c: Crypto, m: Msg, expected: Option<Auth>)
    requires 20 <= |m.raw|
  {
    expected.None? || expected.value.password == [] ||
    (&& (exists user :: Gives(m, user) && c.prepare(user) == c.prepare(expected.value.username) != [])
     && Digested(c, m, expected.value.password))
  }

  /** Exactly the authentic messages pass. */
  lemma PassesAuthIff(c: Crypto, m: Msg, expected: Option<Auth>)
    requires 20 <= |m.raw|
    ensures ValidateAuth(c, m, expected) <==> Authentic(c, m, expected)
  {
    hide VerifyIntegrity, Digested;
    if expected.Some? && expected.value.password != [] {
      DigestedIs(c, m, expected.value.password);
      GivesIs(m, GotUsername(m));
      forall user | Gives(m, user)
        ensures user == GotUsername(m)
      {
        GivesIs(m, user);
      }
    }
  }

  /** In particular none without a digest, whatever else it holds. */
  lemma NoDigestNoPass(c: Crypto, m: Msg, expected: Option<Auth>)
    requires 20 <= |m.raw| && NoIntegrity(m.attrs) && expected.Some? && expected.value.password != []
    ensures !ValidateAuth(c, m, expected)
  {
    PassesAuthIff(c, m, expected);
  }

  /** A digest is added exactly when there is a password and the list is still open to it, and none is
      checked without a password. */
  lemma DigestAddedIff(c: Crypto, m: Msg, password: bytes)
    requires 20 <= |m.raw|
    ensures AddIntegrity(c, m, password).Success? <==>
            password != [] && (m.attrs == [] || !Closing(m.attrs[|m.attrs| - 1]))
    ensures VerifyIntegrity(c, m, []).Failure?
  {
    hide Mac, Encode;
  }

  // ----- FINGERPRINT

  /** There is a FINGERPRINT, and the first one is the checksum of all but the last eight bytes, with
      a length field that counts those. */
  ghost predicate Fingerprinted(c: Crypto, m: Msg)
    requires 20 <= |m.raw|
  {
    exists i: nat :: IsFirst(m.attrs, IsFingerprint, i) &&
      m.attrs[i] == Fingerprint(XorBits(c.crc(SetLength(m.raw[..|m.raw| - 8], (|m.raw| - 20) % 0x1_0000)), 0x5354554E, 32))
  }

  lemma FingerprintedIff(c: Crypto, m: Msg)
    requires 20 <= |m.raw|
    ensures VerifyFingerprint(c, m) <==> Fingerprinted(c, m)
  {
    hide XorBits, SetLength;
    FirstIff(m.attrs, IsFingerprint);
    if First(m.attrs, IsFingerprint).Success? {
      var i := FirstExists(m.attrs, IsFingerprint);
    }
  }

  // ----- What digest and FINGERPRINT cover

  lemma SameLength(b: bytes, n: nat)
    requires 4 <= |b| && n < 0x1_0000 && U16At(b, 2) == n
    ensures SetLength(b, n) == b
  {
    assert b == b[..2] + b[2..4] + b[4..];
    assert b[2..4] == U16(n);
  }

  lemma LengthField(m: Msg)
    requires InStep(m)
    ensures 20 <= |m.raw| && U16At(m.raw, 2) == m.header.length == (|m.raw| - 20) % 0x1_0000
  {
  }

  /** Of a message in step that ends with its only FINGERPRINT, the checksum covers the bytes before
      it, as they are. */
  lemma FingerprintCovers(c: Crypto, m: Msg, pre: seq<Attr>, n: nat)
    requires InStep(m) && m.attrs == pre + [Fingerprint(n)] && First(pre, IsFingerprint).Failure?
    ensures 28 <= |m.raw|
    ensures VerifyFingerprint(c, m) <==> n == XorBits(c.crc(m.raw[..|m.raw| - 8]), FINGERPRINT_XOR, 32)
  {
    hide XorBits, EncodeAll, AllOk, InStep;
    FirstIff(pre, IsFingerprint);
    FirstIs(pre, Fingerprint(n), [], IsFingerprint);
    assert pre + [Fingerprint(n)] + [] == m.attrs;
    FingerprintLast(m, pre, Fingerprint(n), EncodeAll(pre));
    LengthField(m);
    SameLength(m.raw[..|m.raw| - 8], (|m.raw| - 20) % 0x1_0000);
  }

  /** The first MESSAGE-INTEGRITY ends so many bytes before the end of the message. */
  lemma DigestAt(c: Crypto, m: Msg, pre: seq<Attr>, d: Digest, post: seq<Attr>, password: bytes, k: nat)
    requires InStep(m) && m.attrs == pre + [MessageIntegrity(d)] + post && NoIntegrity(pre)
    requires k == |EncodeAll(post)| && password != []
    ensures 44 + k <= |m.raw|
    ensures VerifyIntegrity(c, m, password) ==
            Success(d == c.hmac(c.prepare(password), SetLength(m.raw[..|m.raw| - 24 - k], (|m.raw| - 20 - k) % 0x1_0000)))
  {
    hide EncodeAll, AllOk, InStep, Encode, Mac;
    var body := EncodeAll(pre);
    FirstIs(pre, MessageIntegrity(d), post, IsIntegrity);
    RawSplit(m, pre, MessageIntegrity(d), post);
    EncodeDigest(d);
    HeaderInStep(m);
    MacIsSigned(c, m.raw, m.header, pre, d, EncodeAll(post), password);
    assert m.raw[..20 + |body|] == EncodeHeader(m.header) + body;
    SetLengthOfHeader(m.header, (|body| + 24) % 0x1_0000, body);
  }

  lemma HeaderInStep(m: Msg)
    requires InStep(m)
    ensures HeaderOk(m.header) && |EncodeHeader(m.header)| == 20
  {
  }

  /** Of a message in step that ends with its only MESSAGE-INTEGRITY, the digest covers the bytes before
      it, as they are. */
  lemma DigestCovers(c: Crypto, m: Msg, pre: seq<Attr>, d: Digest, password: bytes)
    requires InStep(m) && m.attrs == pre + [MessageIntegrity(d)] && NoIntegrity(pre) && password != []
    ensures 44 <= |m.raw|
    ensures VerifyIntegrity(c, m, password) == Success(d == c.hmac(c.prepare(password), m.raw[..|m.raw| - 24]))
  {
    hide InStep, VerifyIntegrity;
    assert m.attrs == pre + [MessageIntegrity(d)] + [] && EncodeAll([]) == [];
    DigestAt(c, m, pre, d, [], password, 0);
    LengthField(m);
    SameLength(m.raw[..|m.raw| - 24], (|m.raw| - 20) % 0x1_0000);
  }

  /** With a FINGERPRINT behind it, as agents send it, it covers the same bytes with a length field that
      does not count the FINGERPRINT. */
  lemma DigestCoversBefore(c: Crypto, m: Msg, pre: seq<Attr>, d: Digest, n: nat, password: bytes)
    requires InStep(m) && m.attrs == pre + [MessageIntegrity(d)] + [Fingerprint(n)] && NoIntegrity(pre) && password != []
    ensures 52 <= |m.raw|
    ensures VerifyIntegrity(c, m, password) ==
            Success(d == c.hmac(c.prepare(password), SetLength(m.raw[..|m.raw| - 32], (|m.raw| - 28) % 0x1_0000)))
  {
    hide InStep, VerifyIntegrity;
    PlusFingerprint([], n);
    assert [] + [Fingerprint(n)] == [Fingerprint(n)] && EncodeAll([]) == [];
    DigestAt(c, m, pre, d, [Fingerprint(n)], password, 8);
  }

  /** A message that is not marked for a FINGERPRINT is written as it is, and arrives. */
  lemma PlainArrives(c: Crypto, m: Msg)
    requires Built(m) && !m.fingerprint && |EncodeAll(m.attrs)| < 0x1_0000
    ensures Written(c, m) == Success(m.raw) && Arrives(c, m, m)
  {
    DecodeOwnRaw(m);
  }

  // ----- Messages as a whole

  /** Exactly these messages are valid. */
  lemma ValidIff(c: Crypto, m: Msg, check: Options)
    requires 20 <= |m.raw|
    ensures Validate(c, m, check) <==>
            && m.header.typ / 0x4000 == 0 && m.header.cookie == 0x2112A442 && m.header.length % 4 == 0
            && Authentic(c, m, check.auth) && (check.requireFingerprint ==> Fingerprinted(c, m))
  {
    hide Authentic, Fingerprinted, ValidateAuth, VerifyFingerprint;
    PassesAuthIff(c, m, check.auth);
    FingerprintedIff(c, m);
  }

  /** Of the message types with the top two bits clear, one is a request and one a success response. */
  lemma TypesAre(typ: nat)
    requires typ < 0x4000
    ensures TypeAllowed(typ, METHOD_BINDING, {CLASS_REQUEST}) <==> typ == 0x0001
    ensures TypeAllowed(typ, METHOD_BINDING, {CLASS_SUCCESS}) <==> typ == 0x0101
  {
    var t := typ as bv16;
    TypeRoundTrip(METHOD_BINDING, CLASS_REQUEST, t);
    TypeRoundTrip(METHOD_BINDING, CLASS_SUCCESS, t);
  }

  /** A response is accepted exactly when it is a valid success response to the transaction and comes
      with an address. */
  lemma AcceptedIff(c: Crypto, m: Msg, txID: bytes, check: Options, e: Endpoint)
    requires 20 <= |m.raw| && |m.header.txID| == 12
    ensures ProcessResponse(c, m, txID, check) == Ok(e) <==>
            && Validate(c, m, check) && m.header.txID == txID && m.header.typ == 0x0101
            && MappedAddrPort(m) == Ok(e)
    ensures ProcessResponse(c, m, txID, check).Overrun? <==>
            && Validate(c, m, check) && m.header.txID == txID && m.header.typ == 0x0101
            && MappedAddrPort(m).Overrun?
  {
    hide MappedAddrPort, TypeAllowed;
    if Validate(c, m, check) {
      TypesAre(m.header.typ);
    }
  }

  lemma {:induction false} AppendsOpen(m: Msg, attrs: seq<Attr>)
    requires 20 <= |m.raw| && forall i :: 0 <= i < |m.attrs| ==> !Closing(m.attrs[i])
    requires forall i :: 0 <= i < |attrs| ==> !Closing(attrs[i])
    ensures var r := AppendAll(m, attrs);
            && r.Success? && 20 <= |r.value.raw| && r.value.attrs == m.attrs + attrs
            && r.value.header.typ == m.header.typ && r.value.header.txID == m.header.txID
    decreases attrs
  {
    hide Encode, Size;
    if attrs == [] {
      assert m.attrs + attrs == m.attrs;
    } else {
      AppendsOpen(UnsafeAppend(m, attrs[0]), attrs[1..]);
      assert m.attrs + [attrs[0]] + attrs[1..] == m.attrs + attrs;
    }
  }

  /** A message with attributes that do not close it is always sealed: the attributes stay, and a
      password adds a digest. */
  lemma SealsOpen(c: Crypto, typ: nat, attrs: seq<Attr>, txID: bytes, o: Options)
    requires typ < 0x1_0000 && |txID| == 12 && forall i :: 0 <= i < |attrs| ==> !Closing(attrs[i])
    ensures var r := Seal(c, typ, attrs, txID, o);
            && r.Success? && attrs <= r.value.attrs && r.value.header.typ == typ && r.value.header.txID == txID
            && r.value.fingerprint == o.requireFingerprint
            && |r.value.attrs| == |attrs| + (if o.auth.Some? && o.auth.value.password != [] then 1 else 0)
            && forall i :: |attrs| <= i < |r.value.attrs| ==> r.value.attrs[i].MessageIntegrity?
  {
    hide Mac, Encode, Size;
    var h := Header(typ, 0, MAGIC_COOKIE, txID);
    AppendsOpen(Msg(h, [], EncodeHeader(h), false), attrs);
    assert [] + attrs == attrs;
  }

  /** A request is answered exactly when it is a valid Binding request; and then with its transaction
      ID, the options and the address it came from. */
  lemma AnsweredIff(c: Crypto, m: Msg, remote: Endpoint, check: Options, o: Options)
    requires 20 <= |m.raw| && |m.header.txID| == 12 && EndpointOk(remote)
    ensures var r := ProcessRequest(c, m, remote, check, o);
            && (r.Success? <==> Validate(c, m, check) && m.header.typ == 0x0001)
            && (r.Success? ==>
                  && r.value.header.typ == 0x0101 && r.value.header.txID == m.header.txID
                  && forall x :: !Closing(x) ==>
                       (x in r.value.attrs <==> || OfAuth(o.auth, x) || OfIce(o.ice, x)
                                                || x == XorMappedAddress(XorAddress(remote, m.header.txID))))
  {
    hide Seal, TypeAllowed, XorAddress, Validate, AuthAttrs, IceAttrs;
    var xor := XorMappedAddress(XorAddress(remote, m.header.txID));
    if Validate(c, m, check) {
      ValidType(c, m, check);
      TypesAre(m.header.typ);
      OptionsHeld(o);
      var attrs := AuthAttrs(o) + IceAttrs(o) + [xor];
      assert forall i :: 0 <= i < |attrs| - 1 ==> attrs[i] in AuthAttrs(o) + IceAttrs(o);
      SealsOpen(c, BINDING_RESPONSE, attrs, m.header.txID, o);
      var r := Seal(c, BINDING_RESPONSE, attrs, m.header.txID, o).value;
      forall x: Attr | !Closing(x)
        ensures x in r.attrs <==> x in attrs
      {
        InFront(x, attrs, r.attrs);
      }
    }
  }

  lemma InFront(x: Attr, attrs: seq<Attr>, all: seq<Attr>)
    requires attrs <= all && forall i :: |attrs| <= i < |all| ==> all[i] != x
    ensures x in all <==> x in attrs
  {
  }

  lemma ValidType(c: Crypto, m: Msg, check: Options)
    requires 20 <= |m.raw| && Validate(c, m, check)
    ensures m.header.typ < 0x4000
  {
  }

  // ----- The address in a response

  /** A plain address is read as it stands; there has to be one of the announced family. */
  lemma AddressRead(v: bytes, e: Endpoint)
    requires |v| == 8 || |v| == 20
    ensures ReadAddress(v).Overrun? <==> |v| == 8 && v[1] == 2
    ensures ReadAddress(v) == Ok(e) <==>
            && 8 <= |v| && e.port < 0x1_0000 && v[2..4] == U16(e.port) && e.ip <= v[4..]
            && ((v[1] == 1 && |e.ip| == 4) || (v[1] == 2 && |e.ip| == 16))
  {
    if 8 <= |v| && e.port < 0x1_0000 {
      PortRead(v[2..4], e.port);
      PrefixIff(e.ip, v[4..]);
      assert v[4..][..4] == v[4..8] && (20 <= |v| ==> v[4..][..16] == v[4..20]);
    }
  }

  lemma PortRead(s: bytes, port: nat)
    requires |s| == 2 && port < 0x1_0000
    ensures s == U16(port) <==> U16At(s, 0) == port
  {
  }

  lemma PrefixIff(x: bytes, v: bytes)
    ensures x <= v <==> |x| <= |v| && v[..|x|] == x
  {
  }

  lemma MaskedIff(s: bytes, mask: bytes, r: bytes)
    requires |s| <= |mask|
    ensures IsXor(s, mask, r) <==> |r| == |s| && XorMask(r, mask) == s
  {
    hide IsXor, XorMask;
    XorMaskIsXor(s, mask);
    if IsXor(s, mask, r) {
      XorIsUnique(s, mask, r, XorMask(s, mask));
      XorMaskTwice(s, mask);
    } else if |r| == |s| && XorMask(r, mask) == s {
      XorMaskTwice(r, mask);
    }
  }

  /** A masked address is read as the one that differs from it in the bits of the mask. */
  lemma XorAddressRead(v: bytes, txID: bytes, e: Endpoint)
    requires |txID| == 12
    ensures ReadXorAddress(v, txID) == Success(e) <==>
            && 8 <= |v| && e.port < 0x1_0000 && 4 + |e.ip| <= |v|
            && ((v[1] == 1 && |e.ip| == 4) || (v[1] == 2 && |e.ip| == 16))
            && var mask := BigEndian(0x2112A442, 4) + txID;
               IsXor(U16(e.port), mask, v[2..4]) && IsXor(e.ip, mask, v[4..4 + |e.ip|])
  {
    hide XorMask, IsXor;
    CookieOnWire();
    if 8 <= |v| && e.port < 0x1_0000 {
      var mask := CookieBytes() + txID;
      MaskedIff(U16(e.port), mask, v[2..4]);
      ShortMask(v[2..4], CookieBytes(), txID);
      PortRead(XorMask(v[2..4], CookieBytes()), e.port);
      if v[1] == 1 {
        ShortMask(v[4..8], CookieBytes(), txID);
      }
      if |e.ip| <= 16 && 4 + |e.ip| <= |v| {
        MaskedIff(e.ip, mask, v[4..4 + |e.ip|]);
      }
    }
  }

  /** XOR-MAPPED-ADDRESS goes first, MAPPED-ADDRESS stands in for it, and without either there is no
      address. */
  lemma AddressFrom(m: Msg, i: nat)
    requires |m.header.txID| == 12
    ensures IsFirst(m.attrs, IsXorMapped, i) ==>
              MappedAddrPort(m) == FromResult(ReadXorAddress(m.attrs[i].value, m.header.txID))
    ensures (forall k :: 0 <= k < |m.attrs| ==> !m.attrs[k].XorMappedAddress?) && IsFirst(m.attrs, IsMapped, i) ==>
              MappedAddrPort(m) == ReadAddress(m.attrs[i].value)
    ensures (forall k :: 0 <= k < |m.attrs| ==> !m.attrs[k].XorMappedAddress? && !m.attrs[k].MappedAddress?) ==>
              MappedAddrPort(m) == Bad
  {
    hide ReadXorAddress, ReadAddress;
    FirstIff(m.attrs, IsXorMapped);
    FirstIff(m.attrs, IsMapped);
  }

  /** The decoder lets through addresses of 8 and of 20 bytes only. */
  lemma {:induction false} AddressLengths(b: bytes, v: bytes)
    requires DecodeAll(b).Ok? && MappedAddress(v) in DecodeAll(b).value
    ensures |v| == 8 || |v| == 20
    decreases |b|
  {
    hide DecodeOne, Size;
    var move := AttrMove(b);
    if move.Skip? {
      AddressLengths(b[move.n..], v);
    } else if move.item == MappedAddress(v) {
      DecodedIs(b, move.item);
    } else if move.n <= |b| {
      AddressLengths(b[move.n..], v);
    }
  }

  /** The message has no XOR-MAPPED-ADDRESS, and its first MAPPED-ADDRESS names IPv6 in 8 bytes. */
  ghost predicate ShortAddress(m: Msg) {
    && (forall k :: 0 <= k < |m.attrs| ==> !m.attrs[k].XorMappedAddress?)
    && exists i: nat :: IsFirst(m.attrs, IsMapped, i) && |m.attrs[i].value| == 8 && m.attrs[i].value[1] == 2
  }

  lemma ShortAddressIff(m: Msg)
    requires |m.header.txID| == 12 && forall v :: MappedAddress(v) in m.attrs ==> |v| == 8 || |v| == 20
    ensures MappedAddrPort(m).Overrun? <==> ShortAddress(m)
  {
    hide ReadXorAddress, ReadAddress, MappedAddrPort, First;
    FirstIff(m.attrs, IsXorMapped);
    FirstIff(m.attrs, IsMapped);
    if First(m.attrs, IsXorMapped).Success? {
      var i := FirstExists(m.attrs, IsXorMapped);
      AddressFrom(m, i);
    } else if First(m.attrs, IsMapped).Success? {
      var i := FirstExists(m.attrs, IsMapped);
      AddressFrom(m, i);
      assert m.attrs[i] == MappedAddress(m.attrs[i].value);
      AddressRead(m.attrs[i].value, Endpoint([], 0));
      assert forall j: nat :: IsFirst(m.attrs, IsMapped, j) ==> j == i;
    } else {
      AddressFrom(m, 0);
    }
  }

  /** Reading the address of a received response runs past its end exactly when the response is valid, of
      this transaction, and has such a short address. */
  lemma ResponseOverrunsIff(c: Crypto, b: bytes, m: Msg, txID: bytes, check: Options)
    requires Decode(b) == Ok(m) && 20 <= |m.raw| && |m.header.txID| == 12
    ensures ProcessResponse(c, m, txID, check).Overrun? <==>
            && Validate(c, m, check) && m.header.txID == txID && m.header.typ == 0x0101 && ShortAddress(m)
  {
    hide Validate, ProcessResponse, DecodeAll, ShortAddress, MappedAddrPort;
    AcceptedIff(c, m, txID, check, Endpoint([], 0));
    forall v | MappedAddress(v) in m.attrs
      ensures |v| == 8 || |v| == 20
    {
      AddressLengths(b[20..20 + m.header.length], v);
    }
    ShortAddressIff(m);
  }

  /** Such a response, of 32 bytes. */
  ghost function ShortResponse(txID: bytes): (m: Msg) {
    var a := [0, 1, 0, 8, 0, 2, 0, 0, 0, 0, 0, 0];
    Msg(Header(0x0101, 12, MAGIC_COOKIE, txID), [MappedAddress(a[4..])],
        [1, 1, 0, 12, 0x21, 0x12, 0xA4, 0x42] + txID + a, false)
  }

  lemma ShortHeader(txID: bytes)
    requires |txID| == 12
    ensures var h := ShortResponse(txID).header;
            HeaderOk(h) && EncodeHeader(h) == [1, 1, 0, 12, 0x21, 0x12, 0xA4, 0x42] + txID
  {
    hide BigEndian, FromBigEndian;
    var h := ShortResponse(txID).header;
    assert Power(256, 4) == 0x1_0000_0000;
    HeaderOnWire(h);
    assert EncodeHeader(h)[4..8] == BigEndian(h.cookie, 4);
  }

  lemma ShortAttrs(txID: bytes)
    ensures var attrs := ShortResponse(txID).attrs;
            AllOk(attrs) && EncodeAll(attrs) == [0, 1, 0, 8, 0, 2, 0, 0, 0, 0, 0, 0]
  {
    var a := ShortResponse(txID).attrs[0];
    assert a.value == [0, 2, 0, 0, 0, 0, 0, 0];
    assert Encode(a) == [0, 1, 0, 8] + a.value;
    assert [a][1..] == [];
  }

  lemma ShortResponseInStep(txID: bytes)
    requires |txID| == 12
    ensures InStep(ShortResponse(txID)) && |EncodeAll(ShortResponse(txID).attrs)| == 12
  {
    hide EncodeHeader, EncodeAll, AllOk;
    ShortHeader(txID);
    ShortAttrs(txID);
  }

  lemma ResponseOverruns(c: Crypto, txID: bytes)
    requires |txID| == 12
    ensures var m := ShortResponse(txID);
            Decode(m.raw) == Ok(m) && ProcessResponse(c, m, txID, Options(None, None, false)).Overrun?
  {
    hide InStep;
    var m := ShortResponse(txID);
    ShortResponseInStep(txID);
    DecodeOwnRaw(m);
    ResponseOverrunsIff(c, m.raw, m, txID, Options(None, None, false));
    assert IsFirst(m.attrs, IsMapped, 0);
  }
}
