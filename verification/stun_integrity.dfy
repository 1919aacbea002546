/** MESSAGE-INTEGRITY and FINGERPRINT (sections 14.5 and 14.7 of RFC 8489). */
module StunIntegrity {
  import opened Wrappers
  import opened Bytes
  import opened StunAttributes
  import opened StunMessage

  type Word = n: nat | n < 0x1_0000_0000

  /** The primitives the protocol rests on: HMAC-SHA1 of key and text, CRC-32, and the
      OpaqueString preparation of credentials. Nothing is assumed of them. */
  datatype Crypto = Crypto(hmac: (bytes, bytes) -> Digest, crc: bytes -> Word, prepare: bytes -> bytes)

  // ----- The scan for the MESSAGE-INTEGRITY attribute

  /** The offset of the first MESSAGE-INTEGRITY attribute at or after `i`, or the end. */
  function Boundary(b: bytes, i: nat): (k: nat)
    ensures k <= |b| && (i <= |b| ==> i <= k)
    decreases |b| - i
  {
    if i + 4 > |b| then |b|
    else if U16At(b, i) == TYPE_MESSAGE_INTEGRITY then i
    else Boundary(b, i + TlvSize(U16At(b, i + 2)))
  }

  /** The HMAC over everything before the attribute, with the length field set as if the
      message ended with the attribute. */
  function Mac(c: Crypto, b: bytes, password: bytes): Digest
    requires 20 <= |b|
  {
    var k := Boundary(b, 20);
    c.hmac(c.prepare(password), SetLength(b[..k], (k - 20 + 24) % 0x1_0000))
  }

  ghost predicate NoIntegrity(attrs: seq<Attr>) {
    forall i :: 0 <= i < |attrs| ==> !attrs[i].MessageIntegrity?
  }

  lemma FrontAt(b: bytes, p: bytes, a: Attr, s: bytes)
    requires AttrOk(a) && b == p + (Encode(a) + s)
    ensures |p| + 4 <= |b| && U16At(b, |p|) == Type(a) && U16At(b, |p| + 2) == |Value(a)|
  {
    ValueInverse(a);
    TlvFront(Type(a), Value(a), s);
    assert b[|p|..] == Encode(a) + s;
    assert b[|p| + 2..] == (Encode(a) + s)[2..];
  }

  lemma BoundaryUnfold(b: bytes, i: nat, t: nat, n: nat)
    requires i + 4 <= |b| && U16At(b, i) == t && U16At(b, i + 2) == n
    ensures Boundary(b, i) == if t == TYPE_MESSAGE_INTEGRITY then i else Boundary(b, i + TlvSize(n))
  {
  }

  lemma BoundaryStep(b: bytes, p: bytes, a: Attr, s: bytes, i: nat, j: nat)
    requires AttrOk(a) && b == p + (Encode(a) + s) && i == |p| && j == i + |Encode(a)|
    ensures Boundary(b, i) == if a.MessageIntegrity? then i else Boundary(b, j)
  {
    hide Boundary, AttrOk, Value, Type;
    FrontAt(b, p, a, s);
    BoundaryUnfold(b, i, Type(a), |Value(a)|);
  }

  lemma Regroup(p: bytes, x: bytes, y: bytes, s: bytes)
    ensures p + ((x + y) + s) == p + (x + (y + s)) == (p + x) + (y + s)
  {
  }

  /** The scan steps over every attribute that is not MESSAGE-INTEGRITY. */
  lemma {:induction false} BoundarySkips(b: bytes, p: bytes, attrs: seq<Attr>, s: bytes, i: nat, k: nat)
    requires AllOk(attrs) && NoIntegrity(attrs) && b == p + (EncodeAll(attrs) + s)
    requires i == |p| && k == i + |EncodeAll(attrs)|
    ensures Boundary(b, i) == Boundary(b, k)
    decreases attrs
  {
    hide Encode, Boundary, AttrOk;
    if attrs != [] {
      var e, rest := Encode(attrs[0]), EncodeAll(attrs[1..]);
      assert EncodeAll(attrs) == e + rest;
      Regroup(p, e, rest, s);
      BoundaryStep(b, p, attrs[0], rest + s, i, i + |e|);
      BoundarySkips(b, p + e, attrs[1..], s, i + |e|, k);
    }
  }

  /** The digest of a message with header `h` whose attributes before MESSAGE-INTEGRITY are `pre`. */
  function Signed(c: Crypto, h: Header, pre: seq<Attr>, password: bytes): Digest
    requires h.typ < 0x1_0000
  {
    var n := (|EncodeAll(pre)| + 24) % 0x1_0000;
    c.hmac(c.prepare(password), EncodeHeader(h.(length := n)) + EncodeAll(pre))
  }

  /** The computed HMAC depends on the attributes before MESSAGE-INTEGRITY only: neither on the
      digest it holds, nor on what follows it, nor on the length field. */
  lemma MacIsSigned(c: Crypto, b: bytes, h: Header, pre: seq<Attr>, d: Digest, tail: bytes, password: bytes)
    requires HeaderOk(h) && AllOk(pre) && NoIntegrity(pre)
    requires b == EncodeHeader(h) + (EncodeAll(pre) + (Encode(MessageIntegrity(d)) + tail))
    ensures |b| >= 20 && Mac(c, b, password) == Signed(c, h, pre, password)
  {
    hide Encode, EncodeAll, AllOk, Boundary;
    var e, body := Encode(MessageIntegrity(d)), EncodeAll(pre);
    var p := EncodeHeader(h) + body;
    BoundarySkips(b, EncodeHeader(h), pre, e + tail, 20, |p|);
    Regroup(EncodeHeader(h), body, e, tail);
    BoundaryStep(b, p, MessageIntegrity(d), tail, |p|, |p| + |e|);
    assert Boundary(b, 20) == |p|;
    assert b[..|p|] == p;
    SetLengthOfHeader(h, (|body| + 24) % 0x1_0000, body);
  }

  // ----- Adding and verifying MESSAGE-INTEGRITY

  /** Appends a zeroed attribute, computes the digest and patches it into list and raw bytes. */
  function AddIntegrity(c: Crypto, m: Msg, password: bytes): Result<Msg>
    requires 20 <= |m.raw|
  {
    if password == [] then Failure else
    var m1 :- Append(m, MessageIntegrity(ZERO_DIGEST));
    var d := Mac(c, m1.raw, password);
    Success(m1.(attrs := m1.attrs[..|m1.attrs| - 1] + [MessageIntegrity(d)],
                raw := m1.raw[..|m1.raw| - 20] + d))
  }

  predicate IsIntegrity(a: Attr) { a.MessageIntegrity? }

  predicate IsFingerprint(a: Attr) { a.Fingerprint? }

  /** The first attribute that satisfies the test. */
  function First(attrs: seq<Attr>, test: Attr -> bool): Result<Attr> {
    if attrs == [] then Failure
    else if test(attrs[0]) then Success(attrs[0])
    else First(attrs[1..], test)
  }

  function VerifyIntegrity(c: Crypto, m: Msg, password: bytes): Result<bool>
    requires 20 <= |m.raw|
  {
    if password == [] then Failure else
    var a :- First(m.attrs, IsIntegrity);
    Success(a.MessageIntegrity? && a.digest == Mac(c, m.raw, password))
  }

  lemma {:induction false} FirstIs(pre: seq<Attr>, a: Attr, post: seq<Attr>, test: Attr -> bool)
    requires test(a) && forall i :: 0 <= i < |pre| ==> !test(pre[i])
    ensures First(pre + [a] + post, test) == Success(a)
  {
    if pre != [] {
      assert (pre + [a] + post)[1..] == pre[1..] + [a] + post;
      FirstIs(pre[1..], a, post, test);
    }
  }

  /** The attributes that close a message. */
  predicate Closing(a: Attr) {
    a.MessageIntegrity? || a.MessageIntegritySHA256? || a.Fingerprint?
  }

  /** In a built message, MESSAGE-INTEGRITY can still be appended only if there is none yet. */
  lemma NoneYet(attrs: seq<Attr>, d: Digest)
    requires Ordered(attrs) && (attrs != [] ==> MayFollow(attrs[|attrs| - 1], MessageIntegrity(d)))
    ensures NoIntegrity(attrs)
  {
    if i :| 0 <= i < |attrs| && attrs[i].MessageIntegrity? {
      assert i < |attrs| - 1 ==> MayFollow(attrs[i], attrs[|attrs| - 1]);
    }
  }

  lemma PatchTail(x: bytes, front: bytes, u: bytes, d: bytes, n: nat)
    requires 4 <= |x| && |u| == |d| && n < 0x1_0000
    ensures var r := SetLength(x + (front + u), n);
            |u| <= |r| && r[..|r| - |u|] + d == SetLength(x + (front + d), n)
  {
    assert (x + (front + u))[4..] == x[4..] + front + u;
    assert (x + (front + d))[4..] == x[4..] + front + d;
  }

  lemma EncodeDigest(d: Digest)
    ensures Encode(MessageIntegrity(d)) == U16(TYPE_MESSAGE_INTEGRITY) + U16(20) + d
    ensures Size(MessageIntegrity(d)) == 24
  {
  }

  lemma PatchDigest(m: Msg, d: Digest)
    requires 4 <= |m.raw|
    ensures var m1 := UnsafeAppend(m, MessageIntegrity(ZERO_DIGEST));
            m1.(attrs := m1.attrs[..|m1.attrs| - 1] + [MessageIntegrity(d)], raw := m1.raw[..|m1.raw| - 20] + d)
            == UnsafeAppend(m, MessageIntegrity(d))
  {
    hide Encode, Size;
    var front := U16(TYPE_MESSAGE_INTEGRITY) + U16(20);
    EncodeDigest(ZERO_DIGEST);
    EncodeDigest(d);
    PatchTail(m.raw, front, ZERO_DIGEST, d, (m.header.length + 24) % 0x1_0000);
  }

  /** Adding MESSAGE-INTEGRITY is appending the attribute with the right digest. */
  lemma AddIntegrityIs(c: Crypto, m: Msg, password: bytes)
    requires Built(m) && AddIntegrity(c, m, password).Success?
    ensures NoIntegrity(m.attrs)
    ensures AddIntegrity(c, m, password).value ==
            UnsafeAppend(m, MessageIntegrity(Signed(c, m.header, m.attrs, password)))
  {
    hide EncodeAll, AllOk, Mac;
    NoneYet(m.attrs, ZERO_DIGEST);
    var m1 := UnsafeAppend(m, MessageIntegrity(ZERO_DIGEST));
    AppendInStep(m, MessageIntegrity(ZERO_DIGEST));
    var e := Encode(MessageIntegrity(ZERO_DIGEST));
    assert m1.raw == EncodeHeader(m1.header) + (EncodeAll(m.attrs) + (e + []));
    MacIsSigned(c, m1.raw, m1.header, m.attrs, ZERO_DIGEST, [], password);
    PatchDigest(m, Mac(c, m1.raw, password));
  }

  /** The message carries, as its first MESSAGE-INTEGRITY, the digest for the password. */
  ghost predicate Protected(c: Crypto, m: Msg, pre: seq<Attr>, post: seq<Attr>, password: bytes) {
    && Built(m) && NoIntegrity(pre)
    && m.attrs == pre + [MessageIntegrity(Signed(c, m.header, pre, password))] + post
  }

  /** A message protected with one password verifies with another exactly when both yield the
      same digest; in particular it verifies with its own. */
  lemma ProtectedVerifies(c: Crypto, m: Msg, pre: seq<Attr>, post: seq<Attr>, password: bytes, other: bytes)
    requires Protected(c, m, pre, post, password) && other != []
    ensures VerifyIntegrity(c, m, other) ==
            Success(Signed(c, m.header, pre, password) == Signed(c, m.header, pre, other))
  {
    hide EncodeAll, AllOk, Encode;
    var a := MessageIntegrity(Signed(c, m.header, pre, password));
    FirstIs(pre, a, post, IsIntegrity);
    RawSplit(m, pre, a, post);
    MacIsSigned(c, m.raw, m.header, pre, a.digest, EncodeAll(post), other);
  }

  lemma RawSplit(m: Msg, pre: seq<Attr>, a: Attr, post: seq<Attr>)
    requires InStep(m) && m.attrs == pre + [a] + post
    ensures AllOk(pre) && m.raw == EncodeHeader(m.header) + (EncodeAll(pre) + (Encode(a) + EncodeAll(post)))
  {
    FlatMapSplit(Encode, pre, a, post);
    AllOkAppend(pre + [a], post);
    AllOkSnoc(pre, a);
  }

  /** Adding MESSAGE-INTEGRITY with a password to a built message protects it. */
  lemma AddIntegrityProtects(c: Crypto, m: Msg, password: bytes)
    requires Built(m) && AddIntegrity(c, m, password).Success?
    ensures Protected(c, AddIntegrity(c, m, password).value, m.attrs, [], password)
  {
    AddIntegrityIs(c, m, password);
    var a := MessageIntegrity(Signed(c, m.header, m.attrs, password));
    assert Append(m, a) == Success(UnsafeAppend(m, a));
    AppendBuilt(m, a);
  }

  // ----- FINGERPRINT

  const FINGERPRINT_XOR := 0x5354554E

  /** The CRC over the message, with the length field set as if the attribute were there. */
  function CalculateFingerprint(c: Crypto, b: bytes): nat
    requires 4 <= |b|
  {
    XorBits(c.crc(SetLength(b, (|b| - 20 + 8) % 0x1_0000)), FINGERPRINT_XOR, 32)
  }

  /** The message without its last attribute, the FINGERPRINT. Its raw bytes keep the old length
      field until the next append sets it. */
  function StripFingerprint(m: Msg): Msg
    requires m.attrs != [] && 8 <= |m.raw|
  {
    m.(attrs := m.attrs[..|m.attrs| - 1],
       header := m.header.(length := (m.header.length + 0x1_0000 - 8) % 0x1_0000),
       raw := m.raw[..|m.raw| - 8])
  }

  function StripTrailing(m: Msg): (r: Msg)
    requires 20 <= |m.raw|
    ensures 12 <= |r.raw|
  {
    if m.attrs != [] && m.attrs[|m.attrs| - 1].Fingerprint? then StripFingerprint(m) else m
  }

  function AddFingerprint(c: Crypto, m: Msg): Result<Msg>
    requires 20 <= |m.raw|
  {
    var m0 := StripTrailing(m);
    Append(m0, Fingerprint(CalculateFingerprint(c, m0.raw)))
  }

  function VerifyFingerprint(c: Crypto, m: Msg): bool
    requires 20 <= |m.raw|
  {
    match First(m.attrs, IsFingerprint)
    case Success(Fingerprint(n)) => n == CalculateFingerprint(c, m.raw[..|m.raw| - 8])
    case _ => false
  }

  lemma FingerprintIgnoresLength(c: Crypto, b: bytes, n: nat)
    requires 4 <= |b| && n < 0x1_0000
    ensures CalculateFingerprint(c, SetLength(b, n)) == CalculateFingerprint(c, b)
  {
    var k := (|b| - 20 + 8) % 0x1_0000;
    assert SetLength(SetLength(b, n), k) == SetLength(b, k);
  }

  lemma SetLengthTwice(raw: bytes, tail: bytes, n: nat, k: nat)
    requires 4 <= |raw| && n < 0x1_0000 && k < 0x1_0000
    ensures SetLength(SetLength(raw, n) + tail, k) == SetLength(raw + tail, k)
  {
    assert (SetLength(raw, n) + tail)[4..] == raw[4..] + tail == (raw + tail)[4..];
  }

  lemma AppendIgnoresLength(m: Msg, n: nat, a: Attr)
    requires 4 <= |m.raw| && n < 0x1_0000
    ensures UnsafeAppend(m.(raw := SetLength(m.raw, n)), a) == UnsafeAppend(m, a)
  {
    hide SetLength, Encode, Size;
    SetLengthTwice(m.raw, Encode(a), n, (m.header.length + Size(a)) % 0x1_0000);
  }

  lemma FingerprintOk(c: Crypto, b: bytes)
    requires 4 <= |b|
    ensures AttrOk(Fingerprint(CalculateFingerprint(c, b)))
  {
    assert Power(2, 8) == 0x100 && Power(2, 16) == 0x1_0000;
    assert Power(2, 24) == 0x100_0000 && Power(2, 32) == 0x1_0000_0000;
    assert Power(256, 4) == 0x1_0000_0000;
  }

  /** The built message without a trailing FINGERPRINT. */
  function Bare(m: Msg): Msg
    requires m.header.typ < 0x1_0000
  {
    if m.attrs != [] && m.attrs[|m.attrs| - 1].Fingerprint? then
      var pre := m.attrs[..|m.attrs| - 1];
      var h := m.header.(length := |EncodeAll(pre)| % 0x1_0000);
      m.(attrs := pre, header := h, raw := EncodeHeader(h) + EncodeAll(pre))
    else m
  }

  lemma BareBuilt(m: Msg)
    requires Built(m)
    ensures Built(Bare(m)) && forall i :: 0 <= i < |Bare(m).attrs| ==> !Bare(m).attrs[i].Fingerprint?
  {
    hide EncodeAll;
    if m.attrs != [] {
      var pre, a := m.attrs[..|m.attrs| - 1], m.attrs[|m.attrs| - 1];
      assert m.attrs == pre + [a];
      AllOkSnoc(pre, a);
    }
    forall i | 0 <= i < |m.attrs| - 1
      ensures !m.attrs[i].Fingerprint?
    {
      assert MayFollow(m.attrs[i], m.attrs[|m.attrs| - 1]);
    }
  }

  /** The bytes in front of a trailing attribute, up to the length field, are the header and the
      attributes before it. */
  lemma RawInFront(m: Msg, pre: seq<Attr>, a: Attr)
    requires InStep(m) && m.attrs == pre + [a]
    ensures |m.raw| == 20 + |EncodeAll(pre)| + Size(a)
    ensures m.raw[..|m.raw| - Size(a)] == EncodeHeader(m.header) + EncodeAll(pre)
  {
    FlatMapSnoc(Encode, pre, a);
    assert m.raw == EncodeHeader(m.header) + EncodeAll(pre) + Encode(a);
  }

  lemma WrapBack(x: nat)
    ensures ((x + 8) % 0x1_0000 + 0x1_0000 - 8) % 0x1_0000 == x % 0x1_0000
  {
  }

  lemma FingerprintSize(a: Attr)
    requires a.Fingerprint?
    ensures Size(a) == 8
  {
  }

  /** The bytes and the length of a message with a trailing FINGERPRINT. */
  lemma FingerprintLast(m: Msg, pre: seq<Attr>, a: Attr, body: bytes)
    requires InStep(m) && a.Fingerprint? && m.attrs == pre + [a] && body == EncodeAll(pre)
    ensures |m.raw| == 28 + |body| && m.raw[..|m.raw| - 8] == EncodeHeader(m.header) + body
    ensures m.header.length == (|body| + 8) % 0x1_0000
  {
    RawInFront(m, pre, a);
    FingerprintSize(a);
  }

  lemma Shortened(h: Header, body: bytes)
    requires HeaderOk(h) && h.length == (|body| + 8) % 0x1_0000
    ensures var n := |body| % 0x1_0000;
            && (h.length + 0x1_0000 - 8) % 0x1_0000 == n
            && SetLength(EncodeHeader(h) + body, n) == EncodeHeader(h.(length := n)) + body
  {
    WrapBack(|body|);
    SetLengthOfHeader(h, |body| % 0x1_0000, body);
  }

  /** Stripping leaves the bare message, but for the length field of its raw bytes. */
  lemma StripIsBare(m: Msg)
    requires Built(m) && m.attrs != [] && m.attrs[|m.attrs| - 1].Fingerprint?
    ensures 28 <= |m.raw| && Bare(m).header.length < 0x1_0000
    ensures Bare(m) == StripFingerprint(m).(raw := SetLength(StripFingerprint(m).raw, Bare(m).header.length))
  {
    hide EncodeAll, AllOk, Ordered;
    var pre := m.attrs[..|m.attrs| - 1];
    var body := EncodeAll(pre);
    FingerprintLast(m, pre, m.attrs[|m.attrs| - 1], body);
    Shortened(m.header, body);
  }

  /** Adding a FINGERPRINT to a built message is appending it to the bare message, whether or not
      one was there before. */
  lemma AddFingerprintIs(c: Crypto, m: Msg)
    requires Built(m)
    ensures Built(Bare(m)) && AddFingerprint(c, m) ==
            Success(UnsafeAppend(Bare(m), Fingerprint(CalculateFingerprint(c, Bare(m).raw))))
  {
    BareBuilt(m);
    if m.attrs != [] && m.attrs[|m.attrs| - 1].Fingerprint? {
      StripIsBare(m);
      var m0, n := StripFingerprint(m), Bare(m).header.length;
      FingerprintIgnoresLength(c, m0.raw, n);
      AppendIgnoresLength(m0, n, Fingerprint(CalculateFingerprint(c, m0.raw)));
    }
  }

  lemma AddFingerprintBuilt(c: Crypto, m: Msg)
    requires Built(m)
    ensures AddFingerprint(c, m).Success? && Built(AddFingerprint(c, m).value)
  {
    AddFingerprintIs(c, m);
    BareBuilt(m);
    var a := Fingerprint(CalculateFingerprint(c, Bare(m).raw));
    FingerprintOk(c, Bare(m).raw);
    assert Append(Bare(m), a) == Success(UnsafeAppend(Bare(m), a));
    AppendBuilt(Bare(m), a);
  }

  lemma FingerprintInFront(c: Crypto, b: Msg, a: Attr)
    requires InStep(b) && InStep(UnsafeAppend(b, a)) && a.Fingerprint?
    ensures var raw := UnsafeAppend(b, a).raw;
            28 <= |raw| && CalculateFingerprint(c, raw[..|raw| - 8]) == CalculateFingerprint(c, b.raw)
  {
    hide EncodeAll, Encode, AllOk, CalculateFingerprint;
    var m := UnsafeAppend(b, a);
    RawInFront(m, b.attrs, a);
    SetLengthOfHeader(b.header, m.header.length, EncodeAll(b.attrs));
    FingerprintIgnoresLength(c, b.raw, m.header.length);
  }

  /** A FINGERPRINT that was added verifies. */
  lemma FingerprintVerifies(c: Crypto, m: Msg)
    requires Built(m)
    ensures AddFingerprint(c, m).Success? && VerifyFingerprint(c, AddFingerprint(c, m).value)
  {
    hide EncodeAll, AllOk, CalculateFingerprint, Append;
    AddFingerprintIs(c, m);
    AddFingerprintBuilt(c, m);
    BareBuilt(m);
    var b := Bare(m);
    var a := Fingerprint(CalculateFingerprint(c, b.raw));
    FirstIs(b.attrs, a, [], IsFingerprint);
    assert b.attrs + [a] + [] == UnsafeAppend(b, a).attrs;
    FingerprintInFront(c, b, a);
  }

  /** Adding it again changes nothing. */
  lemma FingerprintIdempotent(c: Crypto, m: Msg)
    requires Built(m)
    ensures AddFingerprint(c, m).Success?
    ensures AddFingerprint(c, AddFingerprint(c, m).value) == AddFingerprint(c, m)
  {
    hide AllOk, CalculateFingerprint, Append;
    AddFingerprintIs(c, m);
    AddFingerprintBuilt(c, m);
    var m' := AddFingerprint(c, m).value;
    AddFingerprintIs(c, m');
    assert Bare(m') == Bare(m);
  }

  // ----- Both together

  lemma SignedIgnoresLength(c: Crypto, h: Header, n: nat, pre: seq<Attr>, password: bytes)
    requires h.typ < 0x1_0000
    ensures Signed(c, h.(length := n), pre, password) == Signed(c, h, pre, password)
  {
  }

  /** The attributes after the digest, once a FINGERPRINT has been added anew. */
  lemma NewTail(attrs: seq<Attr>, pre: seq<Attr>, a: Attr, post: seq<Attr>, fp: Attr) returns (post': seq<Attr>)
    requires attrs == pre + [a] + post && !a.Fingerprint?
    ensures var bare := if attrs[|attrs| - 1].Fingerprint? then attrs[..|attrs| - 1] else attrs;
            bare + [fp] == pre + [a] + post'
  {
    if post != [] && post[|post| - 1].Fingerprint? {
      post' := post[..|post| - 1] + [fp];
      assert attrs[..|attrs| - 1] == pre + [a] + post[..|post| - 1];
    } else {
      post' := post + [fp];
    }
  }

  /** Adding a FINGERPRINT keeps the message protected. */
  lemma FingerprintKeepsProtection(c: Crypto, m: Msg, pre: seq<Attr>, post: seq<Attr>, password: bytes) returns (post': seq<Attr>)
    requires Protected(c, m, pre, post, password)
    ensures AddFingerprint(c, m).Success?
    ensures Protected(c, AddFingerprint(c, m).value, pre, post', password)
  {
    hide EncodeAll, AllOk, CalculateFingerprint, Append;
    AddFingerprintIs(c, m);
    AddFingerprintBuilt(c, m);
    var m' := AddFingerprint(c, m).value;
    SignedIgnoresLength(c, m.header, m'.header.length, pre, password);
    post' := NewTail(m.attrs, pre, MessageIntegrity(Signed(c, m.header, pre, password)), post, m'.attrs[|m'.attrs| - 1]);
  }

  /** What `WriteTo` sends: the raw bytes, after adding the FINGERPRINT if asked to. */
  function Written(c: Crypto, m: Msg): Result<bytes>
    requires 20 <= |m.raw|
  {
    if m.fingerprint then var m' :- AddFingerprint(c, m); Success(m'.raw) else Success(m.raw)
  }

  /** What `SerializeTo` appends to a buffer: header and attributes, serialized afresh. */
  function Serialized(c: Crypto, m: Msg): Result<bytes>
    requires 20 <= |m.raw| && m.header.typ < 0x1_0000 && m.header.length < 0x1_0000
  {
    var m' :- if m.fingerprint then AddFingerprint(c, m) else Success(m);
    assert m'.header.length < 0x1_0000;
    Success(EncodeHeader(m'.header) + EncodeAll(m'.attrs))
  }

  lemma SerializedIsWritten(c: Crypto, m: Msg)
    requires Built(m)
    ensures Serialized(c, m) == Written(c, m) && Written(c, m).Success?
  {
    AddFingerprintBuilt(c, m);
  }

  /** Verification does not look at the pending-FINGERPRINT mark. */
  lemma MarkIrrelevant(c: Crypto, m: Msg, mark: bool)
    requires 20 <= |m.raw|
    ensures VerifyFingerprint(c, m.(fingerprint := mark)) == VerifyFingerprint(c, m)
  {
  }
}
