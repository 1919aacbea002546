/** Two ICE agents with mirrored credentials: what one sends, the other accepts. */
module StunExchange {
  import opened Wrappers
  import opened Bytes
  import opened StunAttributes
  import opened StunMessage
  import opened StunIntegrity
  import opened StunBinding

  // ----- ICE credentials

  datatype IceAuth = IceAuth(localUfrag: bytes, localPassword: bytes, remoteUfrag: bytes, remotePassword: bytes)

  const COLON: bytes := [58]

  function OutgoingUsername(a: IceAuth): bytes {
    if a.localUfrag == [] || a.remoteUfrag == [] then [] else a.remoteUfrag + COLON + a.localUfrag
  }

  function ExpectedUsername(a: IceAuth): bytes {
    if a.localUfrag == [] || a.remoteUfrag == [] then [] else a.localUfrag + COLON + a.remoteUfrag
  }

  function RequestAuth(a: IceAuth): Auth {
    Auth(OutgoingUsername(a), a.remotePassword, [], [])
  }

  function ExpectedAuth(a: IceAuth): Auth {
    Auth(ExpectedUsername(a), a.localPassword, [], [])
  }

  /** The options an ICE agent sends with, and those it checks what it receives with. */
  function SendOptions(a: IceAuth, ice: Option<Ice>): Options {
    Options(Some(RequestAuth(a)), ice, true)
  }

  function CheckOptions(a: IceAuth, ice: Option<Ice>): Options {
    Options(Some(ExpectedAuth(a)), ice, true)
  }

  /** Each agent's local credentials are the other's remote ones, and none is empty. */
  ghost predicate Mirrored(a: IceAuth, b: IceAuth) {
    && a.localUfrag == b.remoteUfrag != [] && a.remoteUfrag == b.localUfrag != []
    && a.localPassword == b.remotePassword != [] && a.remotePassword == b.localPassword != []
  }

  /** OpaqueString preparation never empties a string. */
  ghost predicate KeepsNonEmpty(c: Crypto) {
    forall s :: s != [] ==> c.prepare(s) != []
  }

  // ----- One direction

  lemma {:induction false} FirstInFront(attrs: seq<Attr>, more: seq<Attr>, test: Attr -> bool)
    requires First(attrs, test).Success?
    ensures First(attrs + more, test) == First(attrs, test)
  {
    if !test(attrs[0]) {
      assert (attrs + more)[1..] == attrs[1..] + more;
      FirstInFront(attrs[1..], more, test);
    }
  }

  /** What a sealed message looks like on arrival. */
  lemma SealedArrives(c: Crypto, typ: nat, attrs: seq<Attr>, txID: bytes, o: Options) returns (m: Msg, r: Msg, fp: Attr)
    requires typ < 0x1_0000 && |txID| == 12 && Plain(attrs) && |EncodeAll(attrs)| + 32 < 0x1_0000
    requires o.auth.Some? && o.auth.value.password != [] && o.requireFingerprint
    ensures Seal(c, typ, attrs, txID, o) == Success(m) && Arrives(c, m, r)
    ensures var h := Header(typ, 0, MAGIC_COOKIE, txID);
            Holds(r, h, attrs + [Seals(c, h, attrs, o.auth.value.password)] + [fp])
    ensures fp.Fingerprint? && VerifyFingerprint(c, r)
  {
    hide Seal, Arrives, VerifyFingerprint, AllOk, FlatMap, Signed;
    SealIs(c, typ, attrs, txID, o);
    var h := Header(typ, 0, MAGIC_COOKIE, txID);
    var mac := Seals(c, h, attrs, o.auth.value.password);
    m := Seal(c, typ, attrs, txID, o).value;
    FlatMapSnoc(Encode, attrs, mac);
    r, fp := WrittenArrives(c, m, h, attrs + [mac]);
  }

  /** The check for `expected` accepts what was sent for `sent`: the prepared user names are equal
      and not empty, and both passwords yield the same digest. */
  ghost predicate Accepts(c: Crypto, h: Header, attrs: seq<Attr>, sent: Auth, expected: Option<Auth>)
    requires h.typ < 0x1_0000
  {
    expected.None? || expected.value.password == [] ||
    (&& c.prepare(sent.username) == c.prepare(expected.value.username) != []
     && Signed(c, h, attrs, sent.password) == Signed(c, h, attrs, expected.value.password))
  }

  lemma AuthenticIff(c: Crypto, r: Msg, h: Header, attrs: seq<Attr>, post: seq<Attr>, sent: Auth, expected: Option<Auth>)
    requires h.typ < 0x1_0000 && NoIntegrity(attrs) && Holds(r, h, attrs + [Seals(c, h, attrs, sent.password)] + post)
    requires First(attrs, IsUsername) == Success(Username(sent.username))
    ensures ValidateAuth(c, r, expected) <==> Accepts(c, h, attrs, sent, expected)
  {
    hide EncodeAll, AllOk, Built;
    if expected.Some? && expected.value.password != [] {
      var mac := Seals(c, h, attrs, sent.password);
      FirstInFront(attrs, [mac] + post, IsUsername);
      assert attrs + ([mac] + post) == r.attrs;
      SignedIgnoresLength(c, h, r.header.length, attrs, sent.password);
      SignedIgnoresLength(c, h, r.header.length, attrs, expected.value.password);
      ProtectedVerifies(c, r, attrs, post, sent.password, expected.value.password);
    }
  }

  /** A message sealed for a user and password arrives, and passes a check exactly when the check
      accepts them. */
  lemma SealedChecked(c: Crypto, typ: nat, attrs: seq<Attr>, txID: bytes, o: Options, check: Options)
    returns (m: Msg, r: Msg)
    requires typ < 0x4000 && |txID| == 12 && Plain(attrs) && |EncodeAll(attrs)| + 32 < 0x1_0000
    requires o.auth.Some? && o.auth.value.password != [] && o.requireFingerprint
    requires First(attrs, IsUsername) == Success(Username(o.auth.value.username))
    ensures Seal(c, typ, attrs, txID, o) == Success(m) && Arrives(c, m, r)
    ensures Validate(c, r, check) <==>
            Accepts(c, Header(typ, 0, MAGIC_COOKIE, txID), attrs, o.auth.value, check.auth)
    ensures r.header == Header(typ, r.header.length, MAGIC_COOKIE, txID) && attrs <= r.attrs
    ensures |r.attrs| == |attrs| + 2 && r.attrs[|attrs| + 1].Fingerprint?
    ensures r.attrs[|attrs|] == Seals(c, Header(typ, 0, MAGIC_COOKIE, txID), attrs, o.auth.value.password)
  {
    hide Validate, ValidateAuth, Seal, Arrives, EncodeAll, AllOk, Signed, InStep, Ordered, VerifyFingerprint;
    var fp;
    m, r, fp := SealedArrives(c, typ, attrs, txID, o);
    var h := Header(typ, 0, MAGIC_COOKIE, txID);
    AuthenticIff(c, r, h, attrs, [fp], o.auth.value, check.auth);
    PassesIff(c, r, h, r.attrs, check);
    Leads(attrs, Seals(c, h, attrs, o.auth.value.password), fp);
  }

  lemma Leads<T>(xs: seq<T>, x: T, y: T)
    ensures xs <= xs + [x] + [y]
  {
  }

  lemma PassesIff(c: Crypto, r: Msg, h: Header, attrs: seq<Attr>, check: Options)
    requires Holds(r, h, attrs) && h.typ < 0x4000 && h.cookie == MAGIC_COOKIE && VerifyFingerprint(c, r)
    ensures Validate(c, r, check) <==> ValidateAuth(c, r, check.auth)
  {
    LengthAligned(r);
  }

  // ----- The exchange

  lemma {:induction false} UsernameFirst(u: bytes, more: seq<Attr>)
    ensures First([Username(u)] + more, IsUsername) == Success(Username(u))
  {
  }

  lemma PlainAppend(xs: seq<Attr>, ys: seq<Attr>)
    requires Plain(xs) && Plain(ys)
    ensures Plain(xs + ys)
  {
    hide AllOk;
    AllOkAppend(xs, ys);
  }

  lemma PlainIf(present: bool, a: Attr)
    requires present ==> AttrOk(a) && !Closing(a)
    ensures Plain(if present then [a] else [])
  {
    assert AllOk([a]) <==> AttrOk(a);
  }

  lemma IceAttrsPlain(o: Options)
    requires OptionsOk(o)
    ensures Plain(IceAttrs(o))
  {
    hide Plain;
    if o.ice.Some? {
      var i := o.ice.value;
      var p1 := if i.useCandidate then [UseCandidate] else [];
      var p2 := if i.controlling > 0 then [Controlling(i.controlling)] else [];
      var p3 := if i.controlled > 0 then [Controlled(i.controlled)] else [];
      var p4 := if i.priority > 0 then [Priority(i.priority)] else [];
      PlainIf(i.useCandidate, UseCandidate);
      PlainIf(i.controlling > 0, Controlling(i.controlling));
      PlainIf(i.controlled > 0, Controlled(i.controlled));
      PlainIf(i.priority > 0, Priority(i.priority));
      PlainAppend(p1, p2);
      PlainAppend(p1 + p2, p3);
      PlainAppend(p1 + p2 + p3, p4);
    } else {
      PlainIf(false, UseCandidate);
    }
  }

  lemma PlainOne(a: Attr)
    requires AttrOk(a) && !Closing(a)
    ensures Plain([a])
  {
  }

  /** The attributes of a message sent with an agent's options. */
  lemma SentAttrs(a: IceAuth, ice: Option<Ice>)
    requires a.localUfrag != [] && a.remoteUfrag != [] && OptionsOk(SendOptions(a, ice))
    ensures var o := SendOptions(a, ice);
            && Plain(AuthAttrs(o) + IceAttrs(o))
            && AuthAttrs(o) == [Username(OutgoingUsername(a))]
  {
    var o := SendOptions(a, ice);
    assert AuthAttrs(o) == [Username(OutgoingUsername(a))];
    PlainOne(Username(OutgoingUsername(a)));
    IceAttrsPlain(o);
    PlainAppend(AuthAttrs(o), IceAttrs(o));
  }

  /** The bytes of an agent's attributes, with the seals, fit the 16-bit length field. */
  ghost predicate Fits(a: IceAuth, ice: Option<Ice>, extra: nat) {
    var o := SendOptions(a, ice);
    |EncodeAll(AuthAttrs(o) + IceAttrs(o))| + extra + 32 < 0x1_0000
  }

  function BaseAttrs(a: IceAuth, ice: Option<Ice>): seq<Attr> {
    AuthAttrs(SendOptions(a, ice)) + IceAttrs(SendOptions(a, ice))
  }

  /** The user name in front, digest and FINGERPRINT at the end, and between them the ICE settings. */
  ghost predicate Carries(attrs: seq<Attr>, user: bytes, ice: Option<Ice>) {
    var n := |attrs|;
    && 3 <= n && attrs[0] == Username(user) && attrs[n - 2].MessageIntegrity? && attrs[n - 1].Fingerprint?
    && forall x :: x in attrs[1..n - 2] <==> OfIce(ice, x)
  }

  lemma SealsCarry(attrs: seq<Attr>, all: seq<Attr>, user: bytes, o: Options)
    requires attrs == [Username(user)] + IceAttrs(o) && |all| == |attrs| + 2 && attrs <= all
    requires all[|attrs|].MessageIntegrity? && all[|attrs| + 1].Fingerprint?
    ensures Carries(all, user, o.ice)
  {
    hide IceAttrs, OfIce;
    assert all[1..|all| - 2] == IceAttrs(o);
    forall x: Attr
      ensures x in IceAttrs(o) <==> OfIce(o.ice, x)
    {
      IceIn(o, x);
    }
  }

  /** Every request an agent builds arrives, and passes the check of an agent `b` exactly when
      that agent expects its user name and a password with the same digest. */
  lemma RequestChecked(c: Crypto, a: IceAuth, b: IceAuth, iceA: Option<Ice>, iceB: Option<Ice>, txID: bytes)
    returns (m: Msg, r: Msg)
    requires a.localUfrag != [] && a.remoteUfrag != [] && a.remotePassword != [] && |txID| == 12
    requires OptionsOk(SendOptions(a, iceA)) && Fits(a, iceA, 0)
    ensures BuildRequest(c, SendOptions(a, iceA), txID) == Success(m) && Arrives(c, m, r)
    ensures Validate(c, r, CheckOptions(b, iceB)) <==>
            Accepts(c, Header(BINDING_REQUEST, 0, MAGIC_COOKIE, txID), BaseAttrs(a, iceA), RequestAuth(a), Some(ExpectedAuth(b)))
    ensures r.header == Header(BINDING_REQUEST, r.header.length, MAGIC_COOKIE, txID)
    ensures Carries(r.attrs, a.remoteUfrag + [58] + a.localUfrag, iceA)
    ensures r.attrs[|r.attrs| - 2] ==
            Seals(c, Header(BINDING_REQUEST, 0, MAGIC_COOKIE, txID), BaseAttrs(a, iceA), a.remotePassword)
    ensures b.localUfrag != [] && b.remoteUfrag != [] ==>
              ExpectedAuth(b) == Auth(b.localUfrag + [58] + b.remoteUfrag, b.localPassword, [], [])
  {
    hide Validate, Arrives, OptionsOk, EncodeAll, AllOk, Carries, IceAttrs, Accepts, Seal;
    var o := SendOptions(a, iceA);
    SentAttrs(a, iceA);
    UsernameFirst(OutgoingUsername(a), IceAttrs(o));
    m, r := SealedChecked(c, BINDING_REQUEST, BaseAttrs(a, iceA), txID, o, CheckOptions(b, iceB));
    SealsCarry(BaseAttrs(a, iceA), r.attrs, OutgoingUsername(a), o);
  }

  lemma TypesAllowed()
    ensures TypeAllowed(BINDING_REQUEST, METHOD_BINDING, {CLASS_REQUEST})
    ensures TypeAllowed(BINDING_RESPONSE, METHOD_BINDING, {CLASS_SUCCESS})
  {
  }

  /** A valid request is answered with a sealed response. */
  lemma Answered(c: Crypto, r: Msg, remote: Endpoint, check: Options, o: Options)
    requires 20 <= |r.raw| && |r.header.txID| == 12 && EndpointOk(remote)
    requires Validate(c, r, check) && r.header.typ == BINDING_REQUEST
    ensures ProcessRequest(c, r, remote, check, o) ==
            Seal(c, BINDING_RESPONSE, AuthAttrs(o) + IceAttrs(o) + [XorMappedAddress(XorAddress(remote, r.header.txID))],
                 r.header.txID, o)
  {
    TypesAllowed();
  }

  /** A valid response yields the address in its XOR-MAPPED-ADDRESS. */
  lemma Read(c: Crypto, r: Msg, txID: bytes, check: Options, v: bytes)
    requires 20 <= |r.raw| && |txID| == 12 && r.header.txID == txID
    requires Validate(c, r, check) && r.header.typ == BINDING_RESPONSE
    requires First(r.attrs, IsXorMapped) == Success(XorMappedAddress(v))
    ensures ProcessResponse(c, r, txID, check) == FromResult(ReadXorAddress(v, txID))
  {
    TypesAllowed();
  }

  lemma NoXorMapped(a: IceAuth, ice: Option<Ice>)
    ensures forall i :: 0 <= i < |BaseAttrs(a, ice)| ==> !IsXorMapped(BaseAttrs(a, ice)[i])
  {
  }

  lemma ReplyAttrs(b: IceAuth, ice: Option<Ice>, xor: Attr)
    requires b.localUfrag != [] && b.remoteUfrag != [] && OptionsOk(SendOptions(b, ice))
    requires Fits(b, ice, 24) && xor.XorMappedAddress? && AttrOk(xor)
    ensures var attrs := BaseAttrs(b, ice) + [xor];
            && Plain(attrs) && |EncodeAll(attrs)| + 32 < 0x1_0000
            && First(attrs, IsUsername) == Success(Username(OutgoingUsername(b)))
  {
    SentAttrs(b, ice);
    FlatMapSnoc(Encode, BaseAttrs(b, ice), xor);
    UsernameFirst(OutgoingUsername(b), IceAttrs(SendOptions(b, ice)));
    FirstInFront(BaseAttrs(b, ice), [xor], IsUsername);
    PlainOne(xor);
    PlainAppend(BaseAttrs(b, ice), [xor]);
  }

  /** The peer answers every accepted request, and its answer arrives and passes the check. */
  lemma ResponseAccepted(c: Crypto, a: IceAuth, b: IceAuth, iceA: Option<Ice>, iceB: Option<Ice>, txID: bytes,
                         remote: Endpoint) returns (m: Msg, r: Msg)
    requires Mirrored(a, b) && KeepsNonEmpty(c) && |txID| == 12 && EndpointOk(remote)
    requires OptionsOk(SendOptions(b, iceB)) && Fits(b, iceB, 24)
    ensures var xor := XorMappedAddress(XorAddress(remote, txID));
            && Seal(c, BINDING_RESPONSE, BaseAttrs(b, iceB) + [xor], txID, SendOptions(b, iceB)) == Success(m)
            && Arrives(c, m, r) && Validate(c, r, CheckOptions(a, iceA))
            && r.header == Header(BINDING_RESPONSE, r.header.length, MAGIC_COOKIE, txID)
            && First(r.attrs, IsXorMapped) == Success(xor)
  {
    hide Validate, Seal, Arrives, XorAddress, ReadXorAddress, Fits, EncodeAll;
    var base, xor := BaseAttrs(b, iceB), XorMappedAddress(XorAddress(remote, txID));
    XorAddressRoundTrip(remote, txID);
    ReplyAttrs(b, iceB, xor);
    m, r := SealedChecked(c, BINDING_RESPONSE, base + [xor], txID, SendOptions(b, iceB), CheckOptions(a, iceA));
    NoXorMapped(b, iceB);
    XorFound(base, xor, r.attrs);
  }

  lemma XorFound(base: seq<Attr>, xor: Attr, attrs: seq<Attr>)
    requires base + [xor] <= attrs && IsXorMapped(xor) && forall i :: 0 <= i < |base| ==> !IsXorMapped(base[i])
    ensures First(attrs, IsXorMapped) == Success(xor)
  {
    var rest := attrs[|base| + 1..];
    FirstIs(base, xor, rest, IsXorMapped);
    assert attrs == base + [xor] + rest;
  }

  /** A whole Binding exchange between mirrored agents succeeds in both directions, and the
      requester learns the address the responder saw. */
  lemma BindingExchange(c: Crypto, a: IceAuth, b: IceAuth, iceA: Option<Ice>, iceB: Option<Ice>, txID: bytes, remote: Endpoint)
    returns (m: Msg, r: Msg, m': Msg, r': Msg)
    requires Mirrored(a, b) && KeepsNonEmpty(c) && |txID| == 12 && EndpointOk(remote)
    requires OptionsOk(SendOptions(a, iceA)) && Fits(a, iceA, 0)
    requires OptionsOk(SendOptions(b, iceB)) && Fits(b, iceB, 24)
    ensures BuildRequest(c, SendOptions(a, iceA), txID) == Success(m) && Arrives(c, m, r)
    ensures ProcessRequest(c, r, remote, CheckOptions(b, iceB), SendOptions(b, iceB)) == Success(m') && Arrives(c, m', r')
    ensures ProcessResponse(c, r', txID, CheckOptions(a, iceA)) == Ok(Canonical(remote))
  {
    hide Validate, ProcessRequest, ProcessResponse, BuildRequest, Seal, XorAddress, ReadXorAddress, OptionsOk, Fits, EncodeAll, AllOk;
    m, r := RequestChecked(c, a, b, iceA, iceB, txID);
    Answered(c, r, remote, CheckOptions(b, iceB), SendOptions(b, iceB));
    m', r' := ResponseAccepted(c, a, b, iceA, iceB, txID, remote);
    Read(c, r', txID, CheckOptions(a, iceA), XorAddress(remote, txID));
    XorAddressRoundTrip(remote, txID);
  }
}
