/** Extension headers as they are written (section 4 of RFC 8200, section 2 of RFC 4302), and what the
    walk over them finds. */
module Ipv6Chains {
  import opened Bytes
  import opened Ipv6Headers

  datatype Ext =
    | Options(kind: byte, data: bytes)
    | Fragment(start: nat, flags: nat, id: bytes)
    | Authentication(data: bytes)

  ghost predicate ExtOk(e: Ext) {
    match e
    case Options(kind, data) => kind in {0, 43, 60, 135, 139, 140} && |data| % 8 == 6 && |data| < 2048
    case Fragment(start, flags, id) => start < 0x2000 && flags < 8 && |id| == 4
    case Authentication(data) => |data| % 4 == 2 && 6 <= |data| < 1030
  }

  ghost predicate AllExtOk(es: seq<Ext>) {
    forall i :: 0 <= i < |es| ==> ExtOk(es[i])
  }

  /** The number by which the header before it names a header. */
  function Kind(e: Ext): byte {
    match e case Options(kind, _) => kind case Fragment(_, _, _) => 44 case Authentication(_) => 51
  }

  /** Options count their units of eight bytes without the first, authentication data its units of
      four without the first two. */
  function EncodeExt(e: Ext, next: byte): bytes
    requires ExtOk(e)
  {
    match e
    case Options(_, data) => [next, (|data| + 2) / 8 - 1] + data
    case Fragment(start, flags, id) => [next, 0] + U16(8 * start + flags) + id
    case Authentication(data) => [next, (|data| + 2) / 4 - 2] + data
  }

  /** The number of the first header, `t` being that of the one behind the extension headers. */
  function First(es: seq<Ext>, t: byte): byte {
    if es == [] then t else Kind(es[0])
  }

  function EncodeExts(es: seq<Ext>, t: byte): bytes
    requires AllExtOk(es)
  {
    if es == [] then [] else EncodeExt(es[0], First(es[1..], t)) + EncodeExts(es[1..], t)
  }

  /** A fragment other than the first of its packet: it has no transport header. */
  predicate Later(e: Ext) {
    e.Fragment? && e.start != 0
  }

  /** Within the payload, an extension header is passed unless it is that of a later fragment, and
      leads to the header behind it. */
  lemma ExtPassed(b: bytes, end: nat, o: nat, e: Ext, next: byte)
    requires ExtOk(e) && o + |EncodeExt(e, next)| <= end <= |b|
    requires b[o..o + |EncodeExt(e, next)|] == EncodeExt(e, next)
    ensures Passable(b, Kind(e), o, end) <==> !Later(e)
    ensures b[o] == next && HopLength(b, Kind(e), o) == |EncodeExt(e, next)|
  {
    var x := EncodeExt(e, next);
    var s := b[o..o + |x|];
    assert b[o] == s[0] && b[o + 1] == s[1] && b[o + 2] == s[2] && b[o + 3] == s[3];
  }

  lemma FrontOf(b: bytes, o: nat, x: bytes, y: bytes)
    requires o + |x| + |y| <= |b| && b[o..o + |x| + |y|] == x + y
    ensures b[o..o + |x|] == x && b[o + |x|..o + |x| + |y|] == y
  {
    var s := b[o..o + |x| + |y|];
    assert s[..|x|] == b[o..o + |x|] && s[|x|..] == b[o + |x|..o + |x| + |y|];
  }

  /** Extension headers without a later fragment lead to what is behind them. */
  lemma {:induction false} Leads(b: bytes, end: nat, o: nat, es: seq<Ext>, t: byte)
    requires AllExtOk(es) && (forall i :: 0 <= i < |es| ==> !Later(es[i]))
    requires o + |EncodeExts(es, t)| <= end <= |b| && b[o..o + |EncodeExts(es, t)|] == EncodeExts(es, t)
    ensures Reaches(b, end, First(es, t), o, t, o + |EncodeExts(es, t)|)
    decreases |es|
  {
    hide ExtOk, EncodeExt, Reaches, Passable, HopLength, Later;
    if es == [] {
      ReachesSelf(b, end, t, o);
    } else {
      var x, y := EncodeExt(es[0], First(es[1..], t)), EncodeExts(es[1..], t);
      FrontOf(b, o, x, y);
      ExtPassed(b, end, o, es[0], First(es[1..], t));
      Leads(b, end, o + |x|, es[1..], t);
      ReachesOn(b, end, Kind(es[0]), o, t, o + |x| + |y|);
    }
  }

  /** The numbers of the extension headers. */
  predicate Names(t: byte) {
    t in {0, 43, 44, 51, 60, 135, 139, 140}
  }

  /** Nothing else is reached: only what is behind the headers, and nothing past a later fragment. */
  lemma {:induction false} LeadsOnly(b: bytes, end: nat, o: nat, es: seq<Ext>, t: byte, t': nat, o': nat)
    requires AllExtOk(es) && !Names(t) && Transport(t')
    requires o + |EncodeExts(es, t)| <= end <= |b| && b[o..o + |EncodeExts(es, t)|] == EncodeExts(es, t)
    requires Reaches(b, end, First(es, t), o, t', o')
    ensures t' == t && o' == o + |EncodeExts(es, t)| && forall i :: 0 <= i < |es| ==> !Later(es[i])
    decreases |es|
  {
    hide ExtOk, EncodeExt, Reaches, HopLength, Later;
    if es == [] {
      ReachesOnlySelf(b, end, t, o, t', o');
    } else {
      hide Passable;
      var x, y := EncodeExt(es[0], First(es[1..], t)), EncodeExts(es[1..], t);
      FrontOf(b, o, x, y);
      ExtPassed(b, end, o, es[0], First(es[1..], t));
      if Later(es[0]) {
        ReachesOnlySelf(b, end, Kind(es[0]), o, t', o');
        assert false by { NotTransport(es[0]); }
      } else {
        ReachesBack(b, end, Kind(es[0]), o, t', o');
        LeadsOnly(b, end, o + |x|, es[1..], t, t', o');
      }
    }
  }

  lemma NotTransport(e: Ext)
    requires ExtOk(e)
    ensures !Transport(Kind(e))
  {
  }

  /** A packet with the given fixed header, extension headers and segment, and bytes behind it. */
  ghost predicate Holds(b: bytes, h: bytes, es: seq<Ext>, t: byte, segment: bytes) {
    && AllExtOk(es) && |h| == 40 && h[6] == First(es, t)
    && 256 * h[4] as nat + h[5] as nat == |EncodeExts(es, t)| + |segment|
    && h + EncodeExts(es, t) + segment <= b
  }

  lemma HoldsParts(b: bytes, h: bytes, es: seq<Ext>, t: byte, segment: bytes)
    requires Holds(b, h, es, t, segment)
    ensures AllExtOk(es)
    ensures var n := 40 + |EncodeExts(es, t)|;
            && n <= End(b) == n + |segment| <= |b| && b[6] == First(es, t)
            && b[40..n] == EncodeExts(es, t)
  {
    var x := EncodeExts(es, t);
    assert b[..40 + |x| + |segment|] == h + x + segment;
    assert b[4] == h[4] && b[5] == h[5] && b[6] == h[6];
    assert b[40..40 + |x|] == (h + x + segment)[40..40 + |x|] == x;
  }

  /** A packet has a transport header exactly when what its extension headers lead to is one of TCP,
      UDP or ICMPv6, with at least a byte of payload left for it, and none of them is that of a later
      fragment; and then it is the one behind them. */
  lemma TransportIff(b: bytes, h: bytes, es: seq<Ext>, t: byte, segment: bytes, t': nat, o: nat)
    requires Holds(b, h, es, t, segment) && !Names(t)
    ensures IsTransport(b, t', o) <==>
            && t' == t && t in {6, 17, 58} && o == 40 + |EncodeExts(es, t)| && segment != []
            && forall i :: 0 <= i < |es| ==> !Later(es[i])
  {
    hide Reaches, ExtOk, EncodeExts, Holds, Later, First;
    HoldsParts(b, h, es, t, segment);
    if IsTransport(b, t', o) {
      LeadsOnly(b, End(b), 40, es, t, t', o);
    }
    if forall i :: 0 <= i < |es| ==> !Later(es[i]) {
      Leads(b, End(b), 40, es, t);
    }
  }
}
