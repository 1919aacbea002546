/** Discovery of NAT behaviour (sections 4.3 and 4.4 of RFC 5780), run against a NAT that maps and
    filters as section 4.1 and section 5 of RFC 4787 say. */
module NatDiscovery {
  import opened Wrappers

  datatype Behavior = Unknown | EndpointIndependent | AddressDependent | AddressAndPortDependent

  datatype Endpoint = Endpoint(ip: nat, port: nat)

  // ----- The NAT and the server

  /** Seen from one local socket: the external address it is given towards each destination, and
      the filter in front of it. A host with no NAT is mapped to itself everywhere. */
  datatype Nat = Nat(mapping: Behavior, external: Endpoint -> Endpoint, filtering: Behavior)

  predicate SameMapping(mapping: Behavior, d: Endpoint, e: Endpoint) {
    match mapping
    case Unknown => false
    case EndpointIndependent => true
    case AddressDependent => d.ip == e.ip
    case AddressAndPortDependent => d == e
  }

  /** The external address is reused for exactly the destinations the mapping behaviour names. */
  ghost predicate Faithful(box: Nat) {
    && box.mapping != Unknown && box.filtering != Unknown
    && forall d, e :: box.external(d) == box.external(e) <==> SameMapping(box.mapping, d, e)
  }

  /** A datagram from `from` gets in, once datagrams went out to `sentTo`. */
  predicate Passes(filtering: Behavior, sentTo: set<Endpoint>, from: Endpoint) {
    match filtering
    case Unknown => false
    case EndpointIndependent => sentTo != {}
    case AddressDependent => exists d :: d in sentTo && d.ip == from.ip
    case AddressAndPortDependent => from in sentTo
  }

  /** A server with two addresses and two ports. */
  datatype Server = Server(primary: Endpoint, other: Endpoint)

  ghost predicate ServerOk(s: Server) {
    s.primary.ip != s.other.ip && s.primary.port != s.other.port
  }

  /** The address a response comes from, as the CHANGE-REQUEST flags ask. */
  function Source(s: Server, dest: Endpoint, changeIp: bool, changePort: bool): Endpoint {
    Endpoint(if !changeIp then dest.ip else if dest.ip == s.primary.ip then s.other.ip else s.primary.ip,
             if !changePort then dest.port else if dest.port == s.primary.port then s.other.port else s.primary.port)
  }

  datatype Outcome = Outcome(received: bool, mapped: Endpoint)

  const SILENCE := Outcome(false, Endpoint(0, 0))

  /** One socket's view of the network. */
  class Network {
    const box: Nat
    const server: Server
    const blocked: bool
    var sentTo: set<Endpoint>
    /** Which of the coming exchanges lose a datagram on the server's side of the NAT. */
    var losses: seq<bool>

    constructor (box: Nat, server: Server, blocked: bool, losses: seq<bool>)
      ensures this.box == box && this.server == server && this.blocked == blocked
      ensures sentTo == {} && this.losses == losses
    {
      this.box, this.server, this.blocked, this.losses := box, server, blocked, losses;
      sentTo := {};
    }

    /** A test: a Binding request, and the response if one gets through. */
    method Exchange(dest: Endpoint, changeIp: bool, changePort: bool) returns (o: Outcome)
      modifies this
      ensures sentTo == old(sentTo) + {dest}
      ensures var through := !blocked && Passes(box.filtering, sentTo, Source(server, dest, changeIp, changePort));
              && (o.received ==> through && o.mapped == box.external(dest))
              && (old(losses) == [] ==> losses == [] && o.received == through)
    {
      sentTo := sentTo + {dest};
      var lost := false;
      if losses != [] {
        lost, losses := losses[0], losses[1..];
      }
      if !lost && !blocked && Passes(box.filtering, sentTo, Source(server, dest, changeIp, changePort)) {
        o := Outcome(true, box.external(dest));
      } else {
        o := SILENCE;
      }
    }
  }

  // ----- The discoverer

  datatype Connectivity = UdpBlocked | OpenInternet | SymmetricUdpFirewall | BehindNat

  datatype Report = Report(connectivity: Connectivity, mapping: Behavior, filtering: Behavior)

  /** The address the socket is bound to; none when the system was left to choose. */
  datatype Local = Local(ip: Option<nat>, port: nat)

  predicate IsNatted(local: Local, mapped: Endpoint, private: nat -> bool) {
    match local.ip
    case None => !private(mapped.ip)
    case Some(ip) => (private(ip) && !private(mapped.ip)) || mapped.ip != ip || mapped.port != local.port
  }

  predicate MappedEqual(a: Outcome, b: Outcome) {
    a.received && b.received && a.mapped == b.mapped
  }

  /** Tests II and III of section 4.3; no result when a response is missing. */
  method MappingTests(net: Network, testI: Outcome) returns (r: Result<Behavior>)
    requires Faithful(net.box) && ServerOk(net.server)
    requires testI.received && testI.mapped == net.box.external(net.server.primary)
    modifies net
    ensures r.Success? ==> r.value == net.box.mapping
    ensures old(net.losses) == [] && !net.blocked ==> r.Success?
  {
    var testII := net.Exchange(Endpoint(net.server.other.ip, net.server.primary.port), false, false);
    if !testII.received {
      return Failure;
    }
    if MappedEqual(testI, testII) {
      return Success(EndpointIndependent);
    }
    var testIII := net.Exchange(net.server.other, false, false);
    if !testIII.received {
      return Failure;
    }
    if MappedEqual(testII, testIII) {
      return Success(AddressDependent);
    }
    return Success(AddressAndPortDependent);
  }

  /** What the filtering tests of section 4.4 come to on a loss-free network, when datagrams have
      gone out to `sentTo` before. */
  function FilteringSeen(filtering: Behavior, server: Server, sentTo: set<Endpoint>): Behavior {
    var s := sentTo + {server.primary};
    if Passes(filtering, s, Source(server, server.primary, true, true)) then EndpointIndependent
    else if Passes(filtering, s, Source(server, server.primary, false, true)) then AddressDependent
    else AddressAndPortDependent
  }

  /** Lost datagrams can only make a filter look stricter. */
  predicate AtLeastAsStrict(seen: Behavior, actual: Behavior) {
    match seen
    case Unknown => false
    case EndpointIndependent => actual == EndpointIndependent
    case AddressDependent => actual == EndpointIndependent || actual == AddressDependent
    case AddressAndPortDependent => true
  }

  method FilteringTests(net: Network) returns (f: Behavior)
    requires Faithful(net.box) && ServerOk(net.server) && net.sentTo <= {net.server.primary}
    modifies net
    ensures net.sentTo == {net.server.primary}
    ensures AtLeastAsStrict(f, net.box.filtering)
    ensures old(net.losses) == [] && !net.blocked ==>
              net.losses == [] && f == FilteringSeen(net.box.filtering, net.server, old(net.sentTo))
  {
    var testII := net.Exchange(net.server.primary, true, true);
    if testII.received {
      return EndpointIndependent;
    }
    var testIII := net.Exchange(net.server.primary, false, true);
    if testIII.received {
      return AddressDependent;
    }
    return AddressAndPortDependent;
  }

  /** The report of a run that loses nothing: behind a NAT, its own behaviours; otherwise only whether
      the filter is an open one. */
  function Reported(box: Nat, server: Server, full: bool, local: Local, private: nat -> bool): Report {
    if IsNatted(local, box.external(server.primary), private)
    then Report(BehindNat, box.mapping, if full then box.filtering else Unknown)
    else if box.filtering == EndpointIndependent
    then Report(OpenInternet, EndpointIndependent, EndpointIndependent)
    else Report(SymmetricUdpFirewall, EndpointIndependent, AddressAndPortDependent)
  }

  /** A discovery run. On every network a reported mapping behaviour is the NAT's, and a reported
      filtering behaviour is the NAT's or stricter; without losses both are exactly the NAT's. */
  method Discover(net: Network, full: bool, local: Local, private: nat -> bool) returns (r: Result<Report>)
    requires Faithful(net.box) && ServerOk(net.server) && net.sentTo == {}
    modifies net
    ensures r.Success? && r.value.connectivity.BehindNat? ==>
              && r.value.mapping == net.box.mapping
              && (if full then AtLeastAsStrict(r.value.filtering, net.box.filtering) else r.value.filtering == Unknown)
    ensures r.Success? && r.value.connectivity != UdpBlocked ==>
              (r.value.connectivity.BehindNat? <==> IsNatted(local, net.box.external(net.server.primary), private))
    ensures r.Success? && r.value.connectivity.OpenInternet? ==> net.box.filtering == EndpointIndependent
    ensures net.blocked ==> r == Success(Report(UdpBlocked, Unknown, Unknown))
    ensures old(net.losses) == [] && !net.blocked ==>
              r == Success(Reported(net.box, net.server, full, local, private))
  {
    var testI := net.Exchange(net.server.primary, false, false);
    if !testI.received {
      return Success(Report(UdpBlocked, Unknown, Unknown));
    }
    if !IsNatted(local, testI.mapped, private) {
      var testII := net.Exchange(net.server.primary, true, true);
      if testII.received {
        return Success(Report(OpenInternet, EndpointIndependent, EndpointIndependent));
      }
      return Success(Report(SymmetricUdpFirewall, EndpointIndependent, AddressAndPortDependent));
    }
    var filtering := Unknown;
    if full {
      filtering := FilteringTests(net);
      FilteringExactIff(net.box.filtering, net.server, {net.server.primary});
    }
    var mapping :- MappingTests(net, testI);
    return Success(Report(BehindNat, mapping, filtering));
  }

  // ----- When the answers are right

  /** The filtering tests tell the filter exactly when nothing sent before opens it for them. */
  lemma FilteringExactIff(filtering: Behavior, server: Server, sentTo: set<Endpoint>)
    requires ServerOk(server) && filtering != Unknown
    ensures FilteringSeen(filtering, server, sentTo) == filtering <==>
            match filtering
            case EndpointIndependent => true
            case AddressDependent => forall d :: d in sentTo ==> d.ip != server.other.ip
            case _ => server.other !in sentTo && Endpoint(server.primary.ip, server.other.port) !in sentTo
  {
    assert server.primary in sentTo + {server.primary};
  }

  /** Run after the mapping tests, which talk to the other address, the filtering tests would take
      every filter for an open one. */
  lemma FilteringAfterMapping(filtering: Behavior, server: Server)
    requires ServerOk(server) && filtering != Unknown
    ensures var sentTo := {server.primary, Endpoint(server.other.ip, server.primary.port), server.other};
            FilteringSeen(filtering, server, sentTo) == EndpointIndependent
  {
    var sentTo := {server.primary, Endpoint(server.other.ip, server.primary.port), server.other};
    assert server.other in sentTo + {server.primary};
  }

  /** The socket is the one at `actual`: bound to its address, or left to the system. */
  ghost predicate SocketAt(local: Local, actual: Endpoint) {
    local.port == actual.port && (local.ip.Some? ==> local.ip.value == actual.ip)
  }

  /** The test for a NAT is right for this socket, whatever its address is and becomes. */
  ghost predicate TellsNat(local: Local, private: nat -> bool) {
    forall actual, mapped :: SocketAt(local, actual) ==> (IsNatted(local, mapped, private) <==> mapped != actual)
  }

  /** As long as there are public addresses, the test is right exactly for a socket that is bound to
      an address; of any other it says that there is a NAT when the mapped address is public. */
  lemma NattedIff(local: Local, private: nat -> bool, public: nat)
    requires !private(public)
    ensures TellsNat(local, private) <==> local.ip.Some?
    ensures local.ip.None? ==> forall mapped :: IsNatted(local, mapped, private) <==> !private(mapped.ip)
  {
    if local.ip.None? {
      var host := Endpoint(public, local.port);
      assert SocketAt(local, host) && IsNatted(local, host, private);
    }
  }

  /** The report tells truly, of every NAT and host, whether there is a NAT between them. */
  ghost predicate ReportsNat(server: Server, full: bool, local: Local, private: nat -> bool) {
    forall box, actual :: Faithful(box) && SocketAt(local, actual) ==>
      (Reported(box, server, full, local, private).connectivity.BehindNat? <==> box.external(server.primary) != actual)
  }

  /** A host without a NAT: it is mapped to itself everywhere. */
  function Bare(host: Endpoint): Nat {
    Nat(EndpointIndependent, _ => host, EndpointIndependent)
  }

  /** The same for a whole run. */
  lemma ReportsNatIff(server: Server, full: bool, local: Local, private: nat -> bool, public: nat)
    requires !private(public)
    ensures ReportsNat(server, full, local, private) <==> local.ip.Some?
  {
    NattedIff(local, private, public);
    if local.ip.None? {
      var host := Endpoint(public, local.port);
      assert Faithful(Bare(host)) && SocketAt(local, host);
      assert Reported(Bare(host), server, full, local, private).connectivity.BehindNat?;
    }
  }

  /** A host that is found to have no NAT is reported on the open internet exactly when a datagram from
      the server's other address and port gets in after one went out to the first, and behind a
      firewall otherwise. */
  lemma OpenIff(box: Nat, server: Server, full: bool, local: Local, private: nat -> bool)
    requires Faithful(box) && ServerOk(server) && !IsNatted(local, box.external(server.primary), private)
    ensures var r := Reported(box, server, full, local, private);
            && r.connectivity == (if Passes(box.filtering, {server.primary}, server.other) then OpenInternet
                                  else SymmetricUdpFirewall)
            && r.mapping == EndpointIndependent
            && r.filtering == (if r.connectivity.OpenInternet? then EndpointIndependent else AddressAndPortDependent)
  {
    assert server.primary in {server.primary};
  }

  /** The private, loopback and link-local IPv4 addresses. */
  predicate PrivateV4(ip: nat) {
    || ip / 0x100_0000 == 10 || ip / 0x10_0000 == 0xAC1 || ip / 0x1_0000 == 0xC0A8
    || ip / 0x100_0000 == 127 || ip / 0x1_0000 == 0xA9FE
  }

  /** The host 203.0.113.1, with no NAT in front and a socket left to the system, is reported to be
      behind one. */
  lemma PublicHostReportedNatted(server: Server, full: bool)
    ensures var host := Endpoint(0xCB00_7101, 4000);
            && Faithful(Bare(host)) && Bare(host).external(server.primary) == host
            && Reported(Bare(host), server, full, Local(None, 4000), PrivateV4).connectivity.BehindNat?
  {
    assert !PrivateV4(0xCB00_7101);
  }
}
