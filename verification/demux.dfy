/** The demultiplexer's tunnel list: the same longest-prefix match as the route table, by a list
    kept sorted by falling prefix length. */
module Demux {
  import opened Wrappers
  import opened Bits
  import opened PrefixTrie
  import opened Selection

  /** A network: address and mask, bit by bit. */
  datatype Network = Network(ip: Key, mask: Key)

  /** A route of the list, with the tunnel it leads to. */
  datatype TunnelRoute<T> = TunnelRoute(network: Network, tunnel: T)

  /** A parsed CIDR network: a mask of leading ones, and no address bit beyond it. */
  ghost predicate IsCidr(n: Network, ones: nat) {
    && |n.ip| == |n.mask| && ones <= |n.mask| && Masked(n.ip, ones)
    && forall i :: 0 <= i < |n.mask| ==> n.mask[i] == (i < ones)
  }

  ghost predicate ParsedNetwork(n: Network) {
    exists ones :: IsCidr(n, ones)
  }

  function CountOnes(mask: Key): nat {
    if mask == [] then 0 else CountOnes(mask[..|mask| - 1]) + if mask[|mask| - 1] then 1 else 0
  }

  lemma {:induction false} CidrOnes(mask: Key, ones: nat)
    requires ones <= |mask| && forall i :: 0 <= i < |mask| ==> mask[i] == (i < ones)
    ensures CountOnes(mask) == ones
  {
    if mask != [] {
      CidrOnes(mask[..|mask| - 1], if ones == |mask| then ones - 1 else ones);
    }
  }

  method PrefixLen(mask: Key) returns (n: nat)
    ensures n == CountOnes(mask)
  {
    n := 0;
    for i := 0 to |mask|
      invariant n == CountOnes(mask[..i])
    {
      assert mask[..i + 1][..i] == mask[..i];
      if mask[i] { n := n + 1; }
    }
    assert mask[..|mask|] == mask;
  }

  /** The network contains the address: same width, and equal under the mask. */
  predicate Contains(n: Network, dst: Key) {
    |dst| == |n.ip| == |n.mask| && forall i :: 0 <= i < |dst| ==> n.mask[i] ==> n.ip[i] == dst[i]
  }

  /** The network's leading bits. */
  function Prefix(n: Network): Key {
    if CountOnes(n.mask) <= |n.ip| then n.ip[..CountOnes(n.mask)] else n.ip
  }

  /** For parsed networks, containment is the prefix order on same-width addresses. */
  lemma ContainsIsPrefix(n: Network, dst: Key)
    requires ParsedNetwork(n)
    ensures |Prefix(n)| == CountOnes(n.mask)
    ensures Contains(n, dst) <==> |dst| == |n.ip| && Prefix(n) <= dst
  {
    var ones :| IsCidr(n, ones);
    CidrOnes(n.mask, ones);
    assert |dst| == |n.ip| && Prefix(n) <= dst ==> forall i :: 0 <= i < ones ==> Prefix(n)[i] == dst[i];
  }

  ghost predicate Sorted<T>(rs: seq<TunnelRoute<T>>) {
    forall i, j :: 0 <= i < j < |rs| ==> CountOnes(rs[j].network.mask) <= CountOnes(rs[i].network.mask)
  }

  /** Puts `r` into a sorted list. */
  method InsertSorted<T>(rs: seq<TunnelRoute<T>>, r: TunnelRoute<T>) returns (out: seq<TunnelRoute<T>>)
    requires Sorted(rs)
    ensures Sorted(out) && multiset(out) == multiset(rs) + multiset{r}
  {
    hide CountOnes, Sorted;
    var k := 0;
    var n := PrefixLen(r.network.mask);
    while k < |rs|
      invariant 0 <= k <= |rs|
      invariant forall i :: 0 <= i < k ==> n <= CountOnes(rs[i].network.mask)
    {
      var m := PrefixLen(rs[k].network.mask);
      if m < n {
        break;
      }
      k := k + 1;
    }
    out := rs[..k] + [r] + rs[k..];
    Splice(rs, k, r);
  }

  lemma Splice<T>(rs: seq<TunnelRoute<T>>, k: nat, r: TunnelRoute<T>)
    requires k <= |rs| && Sorted(rs)
    requires forall i :: 0 <= i < k ==> CountOnes(r.network.mask) <= CountOnes(rs[i].network.mask)
    requires k < |rs| ==> CountOnes(rs[k].network.mask) <= CountOnes(r.network.mask)
    ensures Sorted(rs[..k] + [r] + rs[k..])
    ensures multiset(rs[..k] + [r] + rs[k..]) == multiset(rs) + multiset{r}
  {
    hide CountOnes;
    assert rs == rs[..k] + rs[k..];
  }

  /** Any sorting of the list by falling prefix length; the order of equal lengths is open. */
  method SortByLength<T>(rs: seq<TunnelRoute<T>>) returns (out: seq<TunnelRoute<T>>)
    ensures Sorted(out) && multiset(out) == multiset(rs)
  {
    out := [];
    for i := 0 to |rs|
      invariant Sorted(out) && multiset(out) == multiset(rs[..i])
    {
      assert rs[..i + 1] == rs[..i] + [rs[i]];
      out := InsertSorted(out, rs[i]);
    }
    assert rs[..|rs|] == rs;
  }

  /** Every network of the list came from a parser. */
  ghost predicate AllParsed<T>(rs: seq<TunnelRoute<T>>) {
    forall i :: 0 <= i < |rs| ==> ParsedNetwork(rs[i].network)
  }

  /** Longest-prefix match on the list: a tunnel of a containing network that no containing
      network is longer than, and otherwise the default tunnel. */
  ghost predicate IsBestTunnel<T>(rs: seq<TunnelRoute<T>>, default: Option<T>, dst: Key, res: Option<T>) {
    || (res == default && forall i :: 0 <= i < |rs| ==> !Contains(rs[i].network, dst))
    || exists i :: 0 <= i < |rs| && IsLongest(rs, dst, i) && res == Some(rs[i].tunnel)
  }

  ghost predicate IsLongest<T>(rs: seq<TunnelRoute<T>>, dst: Key, i: nat)
    requires i < |rs|
  {
    && Contains(rs[i].network, dst)
    && forall j :: 0 <= j < |rs| && Contains(rs[j].network, dst) ==>
         |Prefix(rs[j].network)| <= |Prefix(rs[i].network)|
  }

  function Parsed<T>(tunnel: T, nets: seq<Option<Network>>): seq<TunnelRoute<T>> {
    if nets == [] then [] else
    Parsed(tunnel, nets[..|nets| - 1]) +
      match nets[|nets| - 1] { case Some(n) => [TunnelRoute(n, tunnel)] case None => [] }
  }

  function Without<T(==)>(rs: seq<TunnelRoute<T>>, tunnel: T): seq<TunnelRoute<T>> {
    if rs == [] then [] else
    var last := rs[|rs| - 1];
    Without(rs[..|rs| - 1], tunnel) + if last.tunnel == tunnel then [] else [last]
  }

  /** What is left of a sorted list is sorted, parsed, and without the tunnel. */
  lemma {:induction false} WithoutKeeps<T>(rs: seq<TunnelRoute<T>>, tunnel: T)
    requires Sorted(rs) && AllParsed(rs)
    ensures var kept := Without(rs, tunnel);
            && Sorted(kept) && AllParsed(kept)
            && forall r :: r in kept ==> r in rs && r.tunnel != tunnel
  {
    hide CountOnes, ParsedNetwork;
    if rs != [] {
      var front, last := rs[..|rs| - 1], rs[|rs| - 1];
      WithoutKeeps(front, tunnel);
      var kept := Without(front, tunnel);
      forall k | 0 <= k < |kept|
        ensures CountOnes(last.network.mask) <= CountOnes(kept[k].network.mask)
      {
        assert kept[k] in front;
      }
    }
  }

  /** What is left is the routes of the other tunnels: all of them, and in the old order. */
  lemma {:induction false} WithoutSelects<T>(rs: seq<TunnelRoute<T>>, tunnel: T)
    ensures Selects(rs, Without(rs, tunnel), (r: TunnelRoute<T>) => r.tunnel != tunnel)
  {
    hide Selects;
    var others := (r: TunnelRoute<T>) => r.tunnel != tunnel;
    if rs == [] {
      SelectsNothing(others);
    } else {
      var front, last := rs[..|rs| - 1], rs[|rs| - 1];
      WithoutSelects(front, tunnel);
      SelectsOne(last, others);
      SelectsAppend(front, Without(front, tunnel), [last], if others(last) then [last] else [], others);
      assert front + [last] == rs;
    }
  }

  lemma {:induction false} ParsedCount<T>(tunnel: T, nets: seq<Option<Network>>, n: Network)
    ensures multiset(Parsed(tunnel, nets))[TunnelRoute(n, tunnel)] == multiset(nets)[Some(n)]
  {
    if nets != [] {
      var front, last := nets[..|nets| - 1], nets[|nets| - 1];
      var routes := Parsed(tunnel, front);
      ParsedCount(tunnel, front, n);
      CountSnoc(front, last, Some(n));
      assert nets == front + [last];
      if last.Some? {
        assert Parsed(tunnel, nets) == routes + [TunnelRoute(last.value, tunnel)];
        CountSnoc(routes, TunnelRoute(last.value, tunnel), TunnelRoute(n, tunnel));
      } else {
        assert Parsed(tunnel, nets) == routes;
      }
    } else {
      assert Parsed(tunnel, nets) == [];
    }
  }

  lemma {:induction false} ParsedTunnel<T>(tunnel: T, nets: seq<Option<Network>>)
    ensures forall r :: r in Parsed(tunnel, nets) ==> r.tunnel == tunnel
  {
    if nets != [] {
      ParsedTunnel(tunnel, nets[..|nets| - 1]);
    }
  }

  /** A network is added as often as it is listed. */
  lemma ParsedCounts<T>(tunnel: T, nets: seq<Option<Network>>)
    ensures forall n :: multiset(Parsed(tunnel, nets))[TunnelRoute(n, tunnel)] == multiset(nets)[Some(n)]
    ensures forall r :: r in Parsed(tunnel, nets) ==> r.tunnel == tunnel
  {
    hide Parsed;
    forall n: Network
      ensures multiset(Parsed(tunnel, nets))[TunnelRoute(n, tunnel)] == multiset(nets)[Some(n)]
    {
      ParsedCount(tunnel, nets, n);
    }
    ParsedTunnel(tunnel, nets);
  }

  lemma NeverPicked<T>(rs: seq<TunnelRoute<T>>, default: Option<T>, tunnel: T)
    requires default != Some(tunnel) && forall r :: r in rs ==> r.tunnel != tunnel
    ensures forall dst, res :: IsBestTunnel(rs, default, dst, res) ==> res != Some(tunnel)
  {
    hide Contains, Prefix;
  }

  class TunnelTable<T(==)> {
    var routes: seq<TunnelRoute<T>>
    var defaultTunnel: Option<T>

    ghost predicate Valid()
      reads this
    {
      Sorted(routes) && AllParsed(routes)
    }

    constructor ()
      ensures Valid() && routes == [] && defaultTunnel == None
    {
      routes, defaultTunnel := [], None;
    }

    /** Adds the networks that parse; `None` stands for a destination that does not. */
    method AddRoutes(tunnel: T, nets: seq<Option<Network>>)
      requires Valid() && forall i :: 0 <= i < |nets| && nets[i].Some? ==> ParsedNetwork(nets[i].value)
      modifies this`routes
      ensures Valid()
      ensures multiset(routes) == multiset(old(routes)) + multiset(Parsed(tunnel, nets))
      ensures forall n ::
                var r := TunnelRoute(n, tunnel);
                multiset(routes)[r] == multiset(old(routes))[r] + multiset(nets)[Some(n)]
      ensures forall r :: r in old(routes) + routes && r.tunnel != tunnel ==>
                multiset(routes)[r] == multiset(old(routes))[r]
    {
      for i := 0 to |nets|
        invariant routes == old(routes) + Parsed(tunnel, nets[..i])
        invariant AllParsed(routes)
      {
        assert nets[..i + 1][..i] == nets[..i];
        if nets[i].None? {
          continue;
        }
        routes := routes + [TunnelRoute(nets[i].value, tunnel)];
      }
      assert nets[..|nets|] == nets;
      ghost var unsorted := routes;
      routes := SortByLength(routes);
      forall i | 0 <= i < |routes| ensures ParsedNetwork(routes[i].network) {
        assert routes[i] in multiset(routes) && routes[i] in multiset(unsorted);
      }
      ParsedCounts(tunnel, nets);
    }

    /** Drops the tunnel's routes and keeps the order of the others; afterwards no lookup
        returns the tunnel. */
    method RemoveRoutes(tunnel: T)
      requires Valid()
      modifies this
      ensures Valid() && routes == Without(old(routes), tunnel)
      ensures forall r :: r in old(routes) ==>
                multiset(routes)[r] == if r.tunnel != tunnel then multiset(old(routes))[r] else 0
      ensures exists at :: InOrder(old(routes), routes, at)
      ensures defaultTunnel == if old(defaultTunnel) == Some(tunnel) then None else old(defaultTunnel)
      ensures forall dst, res :: IsBestTunnel(routes, defaultTunnel, dst, res) ==> res != Some(tunnel)
    {
      hide Sorted, AllParsed, IsBestTunnel, InOrder;
      var kept := [];
      for i := 0 to |routes|
        invariant kept == Without(routes[..i], tunnel)
      {
        assert routes[..i + 1][..i] == routes[..i];
        if routes[i].tunnel != tunnel {
          kept := kept + [routes[i]];
        }
      }
      WithoutKeeps(routes, tunnel);
      WithoutSelects(routes, tunnel);
      assert routes[..|routes|] == routes;
      routes := kept;
      if defaultTunnel == Some(tunnel) {
        defaultTunnel := None;
      }
      NeverPicked(routes, defaultTunnel, tunnel);
    }

    method SetDefault(tunnel: Option<T>)
      requires Valid()
      modifies this`defaultTunnel
      ensures Valid() && defaultTunnel == tunnel
    {
      defaultTunnel := tunnel;
    }

    method Lookup(dst: Key) returns (res: Option<T>)
      requires Valid()
      ensures IsBestTunnel(routes, defaultTunnel, dst, res)
    {
      for i := 0 to |routes|
        invariant forall j :: 0 <= j < i ==> !Contains(routes[j].network, dst)
      {
        if Contains(routes[i].network, dst) {
          forall j | 0 <= j < |routes| && Contains(routes[j].network, dst)
            ensures |Prefix(routes[j].network)| <= |Prefix(routes[i].network)|
          {
            ContainsIsPrefix(routes[i].network, dst);
            ContainsIsPrefix(routes[j].network, dst);
          }
          assert IsLongest(routes, dst, i);
          return Some(routes[i].tunnel);
        }
      }
      return defaultTunnel;
    }
  }

  /** The list holds a network of width `w` with this prefix. */
  ghost predicate Lists<T>(rs: seq<TunnelRoute<T>>, w: nat, p: Key) {
    exists i :: 0 <= i < |rs| && |rs[i].network.ip| == w && Prefix(rs[i].network) == p
  }

  /** The table holds the prefixes of the list's networks of its width: the empty one as its default
      route, the others in its map. */
  ghost predicate SamePrefixes<T>(m: map<Key, Route>, default: Option<Route>, rs: seq<TunnelRoute<T>>, w: nat) {
    && [] !in m && (default.Some? <==> Lists(rs, w, []))
    && forall p :: p != [] ==> (p in m <==> Lists(rs, w, p))
  }

  lemma MatchesAre<T>(m: map<Key, Route>, default: Option<Route>, rs: seq<TunnelRoute<T>>, dst: Key, i: nat)
    requires AllParsed(rs) && SamePrefixes(m, default, rs, |dst|) && i < |rs|
    ensures var p := Prefix(rs[i].network);
            Contains(rs[i].network, dst) <==>
            |rs[i].network.ip| == |dst| && if p == [] then default.Some? else Matches(m, {}, dst, p)
  {
    ContainsIsPrefix(rs[i].network, dst);
    assert |rs[i].network.ip| == |dst| ==> Lists(rs, |dst|, Prefix(rs[i].network));
  }

  ghost predicate SameTables<T>(m: map<Key, Route>, default: Option<Route>, rs: seq<TunnelRoute<T>>, dst: Key) {
    AllParsed(rs) && SamePrefixes(m, default, rs, |dst|)
  }

  lemma LongestBounds<T>(m: map<Key, Route>, default: Option<Route>, rs: seq<TunnelRoute<T>>, dst: Key, i: nat, q: Key)
    requires SameTables(m, default, rs, dst) && i < |rs| && IsLongest(rs, dst, i) && Matches(m, {}, dst, q)
    ensures |q| <= |Prefix(rs[i].network)|
  {
    hide Prefix, Contains;
    assert Lists(rs, |dst|, q);
    var j :| 0 <= j < |rs| && |rs[j].network.ip| == |dst| && Prefix(rs[j].network) == q;
    MatchesAre(m, default, rs, dst, j);
  }

  lemma LongestPick<T>(m: map<Key, Route>, default: Option<Route>, rs: seq<TunnelRoute<T>>, dst: Key, res: Option<Route>, i: nat)
    requires SameTables(m, default, rs, dst) && i < |rs| && IsLongest(rs, dst, i)
    requires IsBestRoute(m, {}, default, dst, res)
    ensures var p := Prefix(rs[i].network);
            if p == [] then res == default else p in m && res == Some(m[p])
  {
    hide Prefix, Contains;
    var p := Prefix(rs[i].network);
    MatchesAre(m, default, rs, dst, i);
    forall q | Matches(m, {}, dst, q)
      ensures |q| <= |p|
    {
      LongestBounds(m, default, rs, dst, i, q);
    }
    if p == [] {
      assert forall q :: !Matches(m, {}, dst, q);
    } else {
      assert IsBestRoute(m, {}, default, dst, Some(m[p]));
      BestRouteUnique(m, {}, default, dst, res, Some(m[p]));
    }
  }

  lemma NonePick<T>(m: map<Key, Route>, default: Option<Route>, rs: seq<TunnelRoute<T>>, dst: Key, res: Option<Route>)
    requires SameTables(m, default, rs, dst) && IsBestRoute(m, {}, default, dst, res)
    ensures res.None? <==> forall i :: 0 <= i < |rs| ==> !Contains(rs[i].network, dst)
  {
    hide Prefix, Contains;
    if i :| 0 <= i < |rs| && Contains(rs[i].network, dst) {
      MatchesAre(m, default, rs, dst, i);
    } else {
      forall q
        ensures !Matches(m, {}, dst, q)
      {
        if Matches(m, {}, dst, q) {
          assert Lists(rs, |dst|, q);
          var j :| 0 <= j < |rs| && |rs[j].network.ip| == |dst| && Prefix(rs[j].network) == q;
          MatchesAre(m, default, rs, dst, j);
        }
      }
      if default.Some? {
        var j :| 0 <= j < |rs| && |rs[j].network.ip| == |dst| && Prefix(rs[j].network) == [];
        MatchesAre(m, default, rs, dst, j);
      }
    }
  }

  /** With the same prefixes of the address's width, the empty one included, and no excluded adapter,
      list and table pick the same prefix: the table's route is the one stored for the prefix of any longest containing
      network, and there is none exactly when no network contains the address. */
  lemma SamePickAsTable<T>(m: map<Key, Route>, default: Option<Route>, rs: seq<TunnelRoute<T>>, dst: Key, res: Option<Route>)
    requires AllParsed(rs) && SamePrefixes(m, default, rs, |dst|)
    requires IsBestRoute(m, {}, default, dst, res)
    ensures res.None? <==> forall i :: 0 <= i < |rs| ==> !Contains(rs[i].network, dst)
    ensures forall i :: 0 <= i < |rs| && IsLongest(rs, dst, i) ==>
              var p := Prefix(rs[i].network);
              if p == [] then res == default else p in m && res == Some(m[p])
  {
    hide Prefix, Contains, IsBestRoute, SamePrefixes;
    NonePick(m, default, rs, dst, res);
    forall i | 0 <= i < |rs| && IsLongest(rs, dst, i)
      ensures var p := Prefix(rs[i].network);
              if p == [] then res == default else p in m && res == Some(m[p])
    {
      LongestPick(m, default, rs, dst, res, i);
    }
  }
}
