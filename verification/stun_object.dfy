/** The message object and the decoding, scanning and hashing loops, each against its value-level
    counterpart. */
module StunObject {
  import opened Wrappers
  import opened Bytes
  import opened StunAttributes
  import opened StunMessage
  import opened StunIntegrity

  // ----- Loops over raw bytes

  /** Walks the attributes of a whole message up to the first MESSAGE-INTEGRITY. */
  method FindBoundary(b: bytes) returns (k: nat)
    requires 20 <= |b|
    ensures k == Boundary(b, 20)
  {
    var i := 20;
    while i + 4 <= |b|
      invariant 20 <= i && Boundary(b, i) == Boundary(b, 20)
      decreases |b| - i
    {
      if U16At(b, i) == TYPE_MESSAGE_INTEGRITY {
        return i;
      }
      var n := U16At(b, i + 2);
      i := i + 4 + n + Padding(n);
    }
    k := |b|;
  }

  /** Sets the length field, takes the CRC and puts the length field back. */
  method FingerprintOf(c: Crypto, message: array<byte>) returns (n: nat)
    requires 4 <= message.Length
    modifies message
    ensures message[..] == old(message[..]) && n == CalculateFingerprint(c, message[..])
  {
    var length := (message.Length - 20 + 8) % 0x1_0000;
    var hi, lo := message[2], message[3];
    message[2], message[3] := length / 256, length % 256;
    assert message[..] == SetLength(old(message[..]), length);
    n := XorBits(c.crc(message[..]), FINGERPRINT_XOR, 32);
    message[2], message[3] := hi, lo;
    assert message[..] == old(message[..]);
  }

  // ----- The message object

  lemma IntegrityAdded(c: Crypto, m: Msg, password: bytes)
    requires 20 <= |m.raw|
    ensures AddIntegrity(c, m, password).Success? && Built(m) ==>
              Protected(c, AddIntegrity(c, m, password).value, m.attrs, [], password)
  {
    if AddIntegrity(c, m, password).Success? && Built(m) {
      AddIntegrityProtects(c, m, password);
    }
  }

  class Message {
    var header: Header
    var attributes: seq<Attr>
    var raw: bytes
    var fingerprint: bool

    ghost function View(): Msg
      reads this
    {
      Msg(header, attributes, raw, fingerprint)
    }

    /** The state after an operation that may fail. */
    ghost predicate Became(ok: bool, was: Msg, r: Result<Msg>)
      reads this
    {
      ok == r.Success? && View() == if ok then r.value else was
    }

    constructor (typ: nat, txID: bytes)
      requires typ < 0x1_0000 && |txID| == 12
      ensures New(typ, [], txID) == Success(View()) && Built(View())
    {
      header := Header(typ, 0, MAGIC_COOKIE, txID);
      attributes, fingerprint := [], false;
      raw := EncodeHeader(Header(typ, 0, MAGIC_COOKIE, txID));
      new;
      assert Power(256, 4) == 0x1_0000_0000;
    }

    /** Appends without a look at the last attribute. */
    method UnsafeAppendAttribute(a: Attr)
      requires 4 <= |raw|
      modifies this
      ensures View() == UnsafeAppend(old(View()), a)
    {
      attributes := attributes + [a];
      header := header.(length := (header.length + Size(a)) % 0x1_0000);
      raw := raw + Encode(a);
      raw := SetLength(raw, header.length);
    }

    /** Appends if the last attribute allows it. */
    method AppendAttribute(a: Attr) returns (ok: bool)
      requires 4 <= |raw|
      modifies this
      ensures Became(ok, old(View()), Append(old(View()), a))
    {
      if |attributes| > 0 && !MayFollow(attributes[|attributes| - 1], a) {
        return false;
      }
      UnsafeAppendAttribute(a);
      ok := true;
    }

    /** The digest for the message as it stands. */
    method CalculateIntegrity(c: Crypto, password: bytes) returns (d: Digest)
      requires 20 <= |raw|
      ensures d == Mac(c, raw, password)
    {
      var k := FindBoundary(raw);
      var text := SetLength(raw[..k], (k - 20 + 24) % 0x1_0000);
      d := c.hmac(c.prepare(password), text);
    }

    /** Appends a zeroed attribute, then patches the digest into the list and the raw bytes. */
    method AddMessageIntegrity(c: Crypto, password: bytes) returns (ok: bool)
      requires 20 <= |raw|
      modifies this
      ensures Became(ok, old(View()), AddIntegrity(c, old(View()), password))
      ensures ok && old(Built(View())) ==> Protected(c, View(), old(attributes), [], password)
    {
      hide Mac, Built, Protected, Encode, Size;
      ghost var was := View();
      if password == [] {
        return false;
      }
      ok := AppendAttribute(MessageIntegrity(ZERO_DIGEST));
      if ok {
        var d := CalculateIntegrity(c, password);
        attributes := attributes[..|attributes| - 1] + [MessageIntegrity(d)];
        raw := raw[..|raw| - 20] + d;
        IntegrityAdded(c, was, password);
      }
    }

    /** Takes a trailing FINGERPRINT off. */
    method Strip()
      requires Built(View())
      modifies this
      ensures View() == StripTrailing(old(View()))
    {
      if |attributes| > 0 && attributes[|attributes| - 1].Fingerprint? {
        StripIsBare(View());
        attributes := attributes[..|attributes| - 1];
        header := header.(length := (header.length + 0x1_0000 - 8) % 0x1_0000);
        raw := raw[..|raw| - 8];
      }
    }

    /** Takes a trailing FINGERPRINT off, computes it afresh and appends it. */
    method AppendFingerprint(c: Crypto) returns (ok: bool)
      requires Built(View())
      modifies this
      ensures ok && AddFingerprint(c, old(View())) == Success(View()) && Built(View())
    {
      ghost var was := View();
      AddFingerprintBuilt(c, was);
      Strip();
      var stripped := raw;
      var message := new byte[|stripped|](i requires 0 <= i < |stripped| => stripped[i]);
      assert message[..] == raw;
      var crc := FingerprintOf(c, message);
      ok := AppendAttribute(Fingerprint(crc));
    }

    /** Sends the raw bytes, with the FINGERPRINT added first if it is pending. */
    method WriteTo(c: Crypto) returns (sent: bytes)
      requires Built(View())
      modifies this
      ensures Written(c, old(View())) == Success(sent) && sent == raw && Built(View())
    {
      if fingerprint {
        var ok := AppendFingerprint(c);
      }
      sent := raw;
    }
  }
}
