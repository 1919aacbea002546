/** The canonical trie is determined by the set of prefixes it stores, and is at most about
    twice as large as that set. */
module TrieShape {
  import opened Bits
  import opened PrefixTrie

  /** Equal tries, up to the routes a value list holds and the tags. */
  ghost predicate SameShape<M, N>(s: Trie<M>, t: Trie<N>) {
    match (s, t)
    case (Nil, Nil) => true
    case (Node(_, k, n, v, s0, s1), Node(_, k', n', v', t0, t1)) =>
      k == k' && n == n' && (v == [] <==> v' == []) && SameShape(s0, t0) && SameShape(s1, t1)
    case _ => false
  }

  ghost predicate SamePrefixes<M, N>(s: Trie<M>, t: Trie<N>) {
    forall p :: Stored(s, p).Some? <==> Stored(t, p).Some?
  }

  lemma {:induction false} SomeStored<N>(t: Trie<N>) returns (p: Key)
    requires t.Node? && Canonical(t)
    ensures Stored(t, p).Some?
  {
    if t.vals != [] {
      p := t.key[..t.len];
    } else {
      p := SomeStored(t.kid0);
      KidPrefixes(t, false, p);
    }
  }

  /** What a child stores, the node stores, beyond its own length and on the child's side. */
  lemma {:induction false} KidPrefixes<N>(t: Trie<N>, bit: bool, p: Key)
    requires t.Node? && Canonical(t)
    ensures Stored(t.Kid(bit), p).Some? <==> t.len < |p| && p[t.len] == bit && Stored(t, p).Some?
  {
    if Stored(t.Kid(bit), p).Some? {
      StoredExtends(t.Kid(bit), p);
    }
  }

  lemma {:induction false} RootNotShorter<M, N>(s: Trie<M>, t: Trie<N>)
    requires s.Node? && Canonical(s) && t.Node? && Canonical(t) && SamePrefixes(s, t)
    ensures t.len <= s.len
  {
    if s.vals != [] {
      assert Stored(s, s.key[..s.len]).Some?;
      StoredExtends(t, s.key[..s.len]);
    } else {
      var a := SomeStored(s.kid0);
      var b := SomeStored(s.kid1);
      KidPrefixes(s, false, a);
      KidPrefixes(s, true, b);
      StoredExtends(t, a);
      StoredExtends(t, b);
    }
  }

  lemma {:induction false} RootsEqual<M, N>(s: Trie<M>, t: Trie<N>, w: nat)
    requires s.Node? && WF(s, w) && t.Node? && WF(t, w) && SamePrefixes(s, t)
    ensures s.len == t.len && s.key == t.key && (s.vals == [] <==> t.vals == [])
  {
    RootNotShorter(s, t);
    RootNotShorter(t, s);
    var p := SomeStored(s);
    StoredExtends(s, p);
    StoredExtends(t, p);
    MaskedEqual(s.key, t.key, s.len);
    var own := s.key[..s.len];
    assert Stored(s, own).Some? <==> Stored(t, own).Some?;
  }

  /** Two canonical tries that store the same prefixes have the same shape, whatever
      insertions and removals led to them. */
  lemma {:induction false} ShapeDetermined<M, N>(s: Trie<M>, t: Trie<N>, w: nat)
    requires WF(s, w) && WF(t, w) && SamePrefixes(s, t)
    ensures SameShape(s, t)
  {
    if s.Nil? && t.Node? {
      var p := SomeStored(t);
    } else if s.Node? && t.Nil? {
      var p := SomeStored(s);
    } else if s.Node? {
      RootsEqual(s, t, w);
      KidsSamePrefixes(s, t, false);
      KidsSamePrefixes(s, t, true);
      ShapeDetermined(s.kid0, t.kid0, w);
      ShapeDetermined(s.kid1, t.kid1, w);
    }
  }

  lemma {:induction false} KidsSamePrefixes<M, N>(s: Trie<M>, t: Trie<N>, bit: bool)
    requires s.Node? && Canonical(s) && t.Node? && Canonical(t) && SamePrefixes(s, t) && s.len == t.len
    ensures SamePrefixes(s.Kid(bit), t.Kid(bit))
  {
    forall p
      ensures Stored(s.Kid(bit), p).Some? <==> Stored(t.Kid(bit), p).Some?
    {
      KidPrefixes(s, bit, p);
      KidPrefixes(t, bit, p);
    }
  }

  // ----- Size

  ghost function NodeCount<N>(t: Trie<N>): nat {
    if t.Nil? then 0 else 1 + NodeCount(t.kid0) + NodeCount(t.kid1)
  }

  ghost function Prefixes<N>(t: Trie<N>): set<Key> {
    if t.Nil? then {} else
    OwnPrefix(t) + (Prefixes(t.kid0) + Prefixes(t.kid1))
  }

  ghost function OwnPrefix<N>(t: Trie<N>): set<Key>
    requires t.Node?
  {
    if t.vals != [] && t.len <= |t.key| then {t.key[..t.len]} else {}
  }

  lemma {:induction false} PrefixesAreStored<N>(t: Trie<N>, p: Key)
    requires Canonical(t)
    ensures p in Prefixes(t) <==> Stored(t, p).Some?
  {
    if t.Node? {
      PrefixesAreStored(t.kid0, p);
      PrefixesAreStored(t.kid1, p);
      KidPrefixes(t, false, p);
      KidPrefixes(t, true, p);
      assert |p| == t.len && Agree(p, t.key, t.len) ==> p == t.key[..t.len];
    }
  }

  lemma {:induction false} KidsDisjoint<N>(t: Trie<N>)
    requires t.Node? && Canonical(t)
    ensures Prefixes(t.kid0) !! Prefixes(t.kid1)
    ensures OwnPrefix(t) !! (Prefixes(t.kid0) + Prefixes(t.kid1))
  {
    forall p | p in Prefixes(t.kid0) || p in Prefixes(t.kid1)
      ensures t.len < |p| && (p in Prefixes(t.kid0) ==> !p[t.len]) && (p in Prefixes(t.kid1) ==> p[t.len])
    {
      PrefixesAreStored(t.kid0, p);
      PrefixesAreStored(t.kid1, p);
      KidPrefixes(t, false, p);
      KidPrefixes(t, true, p);
    }
  }

  lemma {:induction false} NodesPerPrefix<N>(t: Trie<N>)
    requires Canonical(t)
    ensures t.Nil? || NodeCount(t) + 1 <= 2 * |Prefixes(t)|
  {
    if t.Node? {
      NodesPerPrefix(t.kid0);
      NodesPerPrefix(t.kid1);
      KidsDisjoint(t);
      assert |Prefixes(t)| == |OwnPrefix(t)| + |Prefixes(t.kid0)| + |Prefixes(t.kid1)|;
    }
  }

  /** A trie for `n` prefixes has at most `2n - 1` nodes. */
  lemma NodeBound<N>(t: Trie<N>, w: nat, m: map<Key, Route>)
    requires WF(t, w) && Models(t, m)
    ensures if m == map[] then NodeCount(t) == 0 else NodeCount(t) <= 2 * |m| - 1
  {
    forall p
      ensures p in m <==> p in Prefixes(t)
    {
      PrefixesAreStored(t, p);
    }
    assert m.Keys == Prefixes(t);
    NodesPerPrefix(t);
  }

  // ----- Histories

  /** A change to the stored prefixes: the key is masked to `len` bits, as a route's is. */
  datatype Change = Put(key: Key, len: nat, route: Route) | Drop(key: Key, len: nat)

  ghost predicate ChangesOk(h: seq<Change>, w: nat) {
    forall i :: 0 <= i < |h| ==> |h[i].key| == w && 1 <= h[i].len && Masked(h[i].key, h[i].len)
  }

  /** The trie a history leaves, starting from the empty table. */
  ghost function TrieAfter(h: seq<Change>, w: nat): (t: Trie<()>)
    requires ChangesOk(h, w)
    ensures Keyed(t, w)
  {
    if h == [] then Nil else
    var t, last := TrieAfter(h[..|h| - 1], w), h[|h| - 1];
    if last.Put? then
      InsertKeyed(t, last.key, last.len, last.route, (), ());
      Insert(t, last.key, last.len, last.route, (), ())
    else
      RemoveKeyed(t, last.key, last.len);
      Remove(t, last.key, last.len)
  }

  /** The map the same history leaves. */
  ghost function MapAfter(h: seq<Change>): map<Key, Route> {
    if h == [] then map[] else
    var m, last := MapAfter(h[..|h| - 1]), h[|h| - 1];
    if |last.key| < last.len then m
    else if last.Put? then m[last.key[..last.len] := last.route]
    else m - {last.key[..last.len]}
  }

  /** After every history the trie is canonical and stores exactly the map. */
  lemma {:induction false} HistoryRefines(h: seq<Change>, w: nat)
    requires ChangesOk(h, w)
    ensures WF(TrieAfter(h, w), w) && Models(TrieAfter(h, w), MapAfter(h))
  {
    if h != [] {
      var before, last := h[..|h| - 1], h[|h| - 1];
      HistoryRefines(before, w);
      var t := TrieAfter(before, w);
      if last.Put? {
        InsertCanonical(t, last.key, last.len, last.route, (), ());
        forall q { InsertStored(t, last.key, last.len, last.route, (), (), q); }
      } else {
        RemoveCanonical(t, last.key, last.len);
        forall q { RemoveStored(t, last.key, last.len, q); }
      }
    }
  }

  lemma {:induction false} ShapeGivesPrefixes<M, N>(s: Trie<M>, t: Trie<N>, p: Key)
    requires SameShape(s, t)
    ensures Stored(s, p).Some? <==> Stored(t, p).Some?
  {
    if s.Node? && s.len < |p| {
      ShapeGivesPrefixes(s.Kid(p[s.len]), t.Kid(p[s.len]), p);
    }
  }

  /** Two histories leave tries of the same shape exactly when they leave the same prefixes. */
  lemma {:induction false} HistoriesAgree(h: seq<Change>, h': seq<Change>, w: nat)
    requires ChangesOk(h, w) && ChangesOk(h', w)
    ensures MapAfter(h).Keys == MapAfter(h').Keys <==> SameShape(TrieAfter(h, w), TrieAfter(h', w))
  {
    var s, t := TrieAfter(h, w), TrieAfter(h', w);
    HistoryRefines(h, w);
    HistoryRefines(h', w);
    assert forall p :: Stored(s, p).Some? <==> p in MapAfter(h).Keys;
    assert forall p :: Stored(t, p).Some? <==> p in MapAfter(h').Keys;
    if SameShape(s, t) {
      forall p { ShapeGivesPrefixes(s, t, p); }
    } else if SamePrefixes(s, t) {
      ShapeDetermined(s, t, w);
    }
  }
}
