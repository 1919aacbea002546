/** The path-compressed binary prefix trie as a value, and the plain prefix-to-route map it
    stands for. A node carries a tag: the heap model uses the node's own reference, the
    run-level theorems use none. */
module PrefixTrie {
  import opened Wrappers
  import opened Bits

  /** An address family; a table handles the first two. */
  datatype Family = Inet | Inet6 | Other

  function Width(family: Family): nat {
    if family.Inet? then 32 else 128
  }

  /** A route: `addr` is the destination address and `ones` the length of its mask. The
      remaining fields of a route do not influence the table. */
  datatype Route = Route(family: Family, addr: Key, ones: nat, iface: string, gateway: string)

  datatype Trie<N> =
    | Nil
    | Node(tag: N, key: Key, len: nat, vals: seq<Route>, kid0: Trie<N>, kid1: Trie<N>)
  {
    function Kid(bit: bool): Trie<N>
      requires Node?
    {
      if bit then kid1 else kid0
    }

    function WithKid(bit: bool, kid: Trie<N>): Trie<N>
      requires Node?
    {
      if bit then this.(kid1 := kid) else this.(kid0 := kid)
    }
  }

  // ----- Shape

  /** Every key has `w` bits and every prefix length is at most `w`. */
  ghost predicate Keyed<N>(t: Trie<N>, w: nat) {
    t.Node? ==> |t.key| == w && t.len <= w && Keyed(t.kid0, w) && Keyed(t.kid1, w)
  }

  /** A child extends its parent's prefix, and its next bit is the branch it hangs on. */
  ghost predicate Fits<N>(key: Key, len: nat, bit: bool, c: Trie<N>) {
    c.Node? ==> len < c.len <= |c.key| && Agree(c.key, key, len) && c.key[len] == bit
  }

  ghost predicate AllSame(vals: seq<Route>) {
    forall i :: 0 <= i < |vals| ==> vals[i] == vals[0]
  }

  ghost predicate LocalOk<N>(t: Trie<N>)
    requires t.Node?
  {
    && Masked(t.key, t.len) && AllSame(t.vals)
    && (if t.vals == [] then t.kid0.Node? && t.kid1.Node? else 1 <= t.len)
  }

  /** The canonical shape: path-compressed, with `len` growing and the keys agreeing along
      every path. */
  ghost predicate Canonical<N>(t: Trie<N>) {
    t.Node? ==>
      && LocalOk(t)
      && Fits(t.key, t.len, false, t.kid0) && Canonical(t.kid0)
      && Fits(t.key, t.len, true, t.kid1) && Canonical(t.kid1)
  }

  ghost predicate WF<N>(t: Trie<N>, w: nat) {
    Keyed(t, w) && Canonical(t)
  }

  // ----- The map a trie stands for

  /** The route stored for exactly the prefix `p`. */
  ghost function Stored<N>(t: Trie<N>, p: Key): Option<Route> {
    if t.Nil? then None
    else if t.len < |p| then Stored(t.Kid(p[t.len]), p)
    else if t.vals != [] && |p| == t.len && Agree(p, t.key, t.len) then Some(t.vals[0])
    else None
  }

  /** A stored prefix extends the prefix of every node above it. */
  lemma {:induction false} StoredExtends<N>(t: Trie<N>, p: Key)
    requires t.Node? && Canonical(t) && Stored(t, p).Some?
    ensures 1 <= |p| && t.len <= |p| && Agree(p, t.key, t.len)
  {
    if t.len < |p| {
      StoredExtends(t.Kid(p[t.len]), p);
    }
  }

  // ----- Insert

  /** What `addRoute` leaves: every stored entry overwritten, and one more appended. */
  function AddRoute(vals: seq<Route>, r: Route): seq<Route> {
    seq(|vals|, _ => r) + [r]
  }

  function Leaf<N>(tag: N, key: Key, len: nat, r: Route): Trie<N> {
    Node(tag, key, len, [r], Nil, Nil)
  }

  function Min(a: nat, b: nat): nat {
    if a < b then a else b
  }

  /** A branch point at the first differing bit, over the old trie and the new prefix. */
  function Branch<N>(t: Trie<N>, key: Key, len: nat, r: Route, leaf: N, branch: N, shared: nat): Trie<N>
    requires t.Node? && shared < |t.key| && shared <= |key|
  {
    var added := Leaf(leaf, key, len, r);
    Node(branch, Mask(key, shared), shared, [],
         if t.key[shared] then added else t, if t.key[shared] then t else added)
  }

  function Insert<N>(t: Trie<N>, key: Key, len: nat, r: Route, leaf: N, branch: N): Trie<N>
    requires len <= |key| && Keyed(t, |key|)
  {
    if t.Nil? then Leaf(leaf, key, len, r) else
    var shared := Min(CommonBits(key, t.key), t.len);
    if shared >= len && len < t.len then
      Leaf(leaf, key, len, r).WithKid(t.key[len], t)
    else if shared >= len then
      t.(vals := AddRoute(t.vals, r))
    else if shared == t.len then
      t.WithKid(key[t.len], Insert(t.Kid(key[t.len]), key, len, r, leaf, branch))
    else
      Branch(t, key, len, r, leaf, branch, shared)
  }

  lemma {:induction false} InsertKeyed<N>(t: Trie<N>, key: Key, len: nat, r: Route, leaf: N, branch: N)
    requires len <= |key| && Keyed(t, |key|)
    ensures Keyed(Insert(t, key, len, r, leaf, branch), |key|)
  {
    if t.Node? && CommonBits(key, t.key) >= t.len && t.len < len {
      InsertKeyed(t.Kid(key[t.len]), key, len, r, leaf, branch);
    }
  }

  lemma {:induction false} AboveCanonical<N>(t: Trie<N>, key: Key, len: nat, r: Route, leaf: N)
    requires t.Node? && 1 <= len < t.len && Masked(key, len) && WF(t, |key|)
    requires Agree(key, t.key, len)
    ensures Canonical(Leaf(leaf, key, len, r).WithKid(t.key[len], t))
  {
  }

  lemma {:induction false} BranchCanonical<N>(t: Trie<N>, key: Key, len: nat, r: Route, leaf: N, branch: N, shared: nat)
    requires t.Node? && Masked(key, len) && WF(t, |key|)
    requires shared < len && shared < t.len
    requires Agree(key, t.key, shared) && key[shared] != t.key[shared]
    ensures Canonical(Branch(t, key, len, r, leaf, branch, shared))
  {
    assert Canonical(Leaf(leaf, key, len, r));
  }

  lemma {:induction false} KidCanonical<N>(t: Trie<N>, bit: bool, k: Trie<N>)
    requires t.Node? && Canonical(t) && k.Node? && Canonical(k) && Fits(t.key, t.len, bit, k)
    ensures Canonical(t.WithKid(bit, k))
  {
  }

  /** The new root's prefix is a prefix of the inserted key, no shorter than what that key
      shares with the old root. */
  lemma {:induction false} InsertRoot<N>(t: Trie<N>, key: Key, len: nat, r: Route, leaf: N, branch: N)
    requires len <= |key| && Keyed(t, |key|)
    ensures var t' := Insert(t, key, len, r, leaf, branch);
            && t'.Node? && t'.len <= len && Agree(t'.key, key, t'.len)
            && (t.Node? ==> Min(CommonBits(key, t.key), Min(len, t.len)) <= t'.len)
  {
  }

  lemma {:induction false} InsertFits<N>(t: Trie<N>, key: Key, len: nat, r: Route, leaf: N, branch: N)
    requires t.Node? && t.len < len <= |key| && WF(t, |key|) && Agree(key, t.key, t.len)
    ensures Fits(t.key, t.len, key[t.len], Insert(t.Kid(key[t.len]), key, len, r, leaf, branch))
  {
    InsertRoot(t.Kid(key[t.len]), key, len, r, leaf, branch);
  }

  /** Insertion keeps the canonical shape. */
  lemma {:induction false} InsertCanonical<N>(t: Trie<N>, key: Key, len: nat, r: Route, leaf: N, branch: N)
    requires 1 <= len && Masked(key, len) && WF(t, |key|)
    ensures Canonical(Insert(t, key, len, r, leaf, branch))
  {
    InsertRoot(t, key, len, r, leaf, branch);
    if t.Nil? {
      return;
    }
    var t' := Insert(t, key, len, r, leaf, branch);
    var shared := Min(CommonBits(key, t.key), t.len);
    if shared >= len && len < t.len {
      AboveCanonical(t, key, len, r, leaf);
    } else if shared >= len {
      assert t' == t.(vals := AddRoute(t.vals, r));
    } else if shared == t.len {
      var k := t.Kid(key[t.len]);
      InsertCanonical(k, key, len, r, leaf, branch);
      InsertRoot(k, key, len, r, leaf, branch);
      InsertFits(t, key, len, r, leaf, branch);
      KidCanonical(t, key[t.len], Insert(k, key, len, r, leaf, branch));
    } else {
      BranchCanonical(t, key, len, r, leaf, branch, shared);
    }
  }

  lemma {:induction false} BranchStored<N>(t: Trie<N>, key: Key, len: nat, r: Route, leaf: N, branch: N, shared: nat, q: Key)
    requires t.Node? && len <= |key| && WF(t, |key|)
    requires shared < len && shared < t.len
    requires Agree(key, t.key, shared) && key[shared] != t.key[shared]
    ensures Stored(Branch(t, key, len, r, leaf, branch, shared), q) ==
            if q == key[..len] then Some(r) else Stored(t, q)
  {
    if Stored(t, q).Some? {
      StoredExtends(t, q);
    }
    var t' := Branch(t, key, len, r, leaf, branch, shared);
    LeafStored(leaf, key, len, r, q);
    if shared < |q| {
      assert Stored(t', q) == Stored(if q[shared] == t.key[shared] then t else Leaf(leaf, key, len, r), q);
    }
  }

  lemma LeafStored<N>(tag: N, key: Key, len: nat, r: Route, q: Key)
    requires len <= |key|
    ensures Stored(Leaf(tag, key, len, r), q) == if q == key[..len] then Some(r) else None
  {
  }

  lemma {:induction false} AboveStored<N>(t: Trie<N>, key: Key, len: nat, r: Route, leaf: N, q: Key)
    requires t.Node? && len < t.len && WF(t, |key|) && Agree(key, t.key, len)
    ensures Stored(Leaf(leaf, key, len, r).WithKid(t.key[len], t), q) ==
            if q == key[..len] then Some(r) else Stored(t, q)
  {
    if Stored(t, q).Some? {
      StoredExtends(t, q);
    }
  }

  lemma {:induction false} SameStored<N>(t: Trie<N>, key: Key, r: Route, q: Key)
    requires t.Node? && t.len <= |key| && Agree(key, t.key, t.len)
    ensures Stored(t.(vals := AddRoute(t.vals, r)), q) ==
            if q == key[..t.len] then Some(r) else Stored(t, q)
  {
    var t' := t.(vals := AddRoute(t.vals, r));
    assert t'.Kid(false) == t.Kid(false) && t'.Kid(true) == t.Kid(true);
  }

  lemma {:induction false} KidStored<N>(t: Trie<N>, bit: bool, k: Trie<N>, q: Key)
    requires t.Node?
    ensures Stored(t.WithKid(bit, k), q) ==
            if t.len < |q| && q[t.len] == bit then Stored(k, q) else Stored(t, q)
  {
    assert t.WithKid(bit, k).Kid(bit) == k && t.WithKid(bit, k).Kid(!bit) == t.Kid(!bit);
  }

  /** Insertion changes the route of the inserted prefix, to the latest, and no other. */
  lemma {:induction false} InsertStored<N>(t: Trie<N>, key: Key, len: nat, r: Route, leaf: N, branch: N, q: Key)
    requires 1 <= len <= |key| && WF(t, |key|)
    ensures Stored(Insert(t, key, len, r, leaf, branch), q) ==
            if q == key[..len] then Some(r) else Stored(t, q)
  {
    if t.Nil? {
      LeafStored(leaf, key, len, r, q);
      return;
    }
    var shared := Min(CommonBits(key, t.key), t.len);
    if shared >= len && len < t.len {
      AboveStored(t, key, len, r, leaf, q);
    } else if shared >= len {
      SameStored(t, key, r, q);
    } else if shared == t.len {
      var k := t.Kid(key[t.len]);
      InsertStored(k, key, len, r, leaf, branch, q);
      KidStored(t, key[t.len], Insert(k, key, len, r, leaf, branch), q);
      assert t.len < |key[..len]| && key[..len][t.len] == key[t.len];
    } else {
      BranchStored(t, key, len, r, leaf, branch, shared, q);
    }
  }

  // ----- Remove

  /** Drops a node that holds no route and does not branch. */
  function Compress<N>(t: Trie<N>): Trie<N>
    requires t.Node?
  {
    if t.vals != [] || (t.kid0.Node? && t.kid1.Node?) then t
    else if t.kid0.Node? then t.kid0
    else t.kid1
  }

  function Remove<N>(t: Trie<N>, key: Key, len: nat): Trie<N>
    requires len <= |key| && Keyed(t, |key|)
  {
    if t.Nil? || CommonBits(key, t.key) < t.len || len < t.len then t
    else if t.len == len then Compress(t.(vals := []))
    else Compress(t.WithKid(key[t.len], Remove(t.Kid(key[t.len]), key, len)))
  }

  /** A canonical node, except that it may be due for compression. */
  ghost predicate Loose<N>(t: Trie<N>)
    requires t.Node?
  {
    && Masked(t.key, t.len) && AllSame(t.vals) && (t.vals != [] ==> 1 <= t.len)
    && Fits(t.key, t.len, false, t.kid0) && Canonical(t.kid0)
    && Fits(t.key, t.len, true, t.kid1) && Canonical(t.kid1)
  }

  lemma {:induction false} CompressCorrect<N>(t: Trie<N>, q: Key)
    requires t.Node? && Loose(t)
    ensures Canonical(Compress(t)) && Stored(Compress(t), q) == Stored(t, q)
    ensures var c := Compress(t); c.Node? ==> t.len <= c.len && Agree(c.key, t.key, t.len)
  {
    var c := Compress(t);
    if c.Node? && Stored(c, q).Some? {
      StoredExtends(c, q);
    }
    assert t.vals == [] && t.len < |q| && t.Kid(q[t.len]).Nil? ==> Stored(t, q).None?;
  }

  lemma {:induction false} RemoveKeyed<N>(t: Trie<N>, key: Key, len: nat)
    requires len <= |key| && Keyed(t, |key|)
    ensures Keyed(Remove(t, key, len), |key|)
  {
    if t.Node? && CommonBits(key, t.key) >= t.len && t.len < len {
      RemoveKeyed(t.Kid(key[t.len]), key, len);
    }
  }

  lemma {:induction false} RemoveBelow<N>(t: Trie<N>, key: Key, len: nat)
    requires t.Node? && t.len < len <= |key| && WF(t, |key|)
    requires var k := t.Kid(key[t.len]); var k' := Remove(k, key, len);
             Canonical(k') && (k.Node? && k'.Node? ==> k.len <= k'.len && Agree(k'.key, k.key, k.len))
    ensures Loose(t.WithKid(key[t.len], Remove(t.Kid(key[t.len]), key, len)))
  {
    var k := t.Kid(key[t.len]);
    assert k.Nil? ==> Remove(k, key, len).Nil?;
  }

  /** Removal keeps the canonical shape, at or below the old root's prefix. */
  lemma {:induction false} RemoveCanonical<N>(t: Trie<N>, key: Key, len: nat)
    requires 1 <= len <= |key| && WF(t, |key|)
    ensures var t' := Remove(t, key, len);
            Canonical(t') && (t.Node? && t'.Node? ==> t.len <= t'.len && Agree(t'.key, t.key, t.len))
  {
    if t.Nil? || CommonBits(key, t.key) < t.len || len < t.len {
    } else if t.len == len {
      CompressCorrect(t.(vals := []), []);
    } else {
      RemoveCanonical(t.Kid(key[t.len]), key, len);
      RemoveBelow(t, key, len);
      CompressCorrect(t.WithKid(key[t.len], Remove(t.Kid(key[t.len]), key, len)), []);
    }
  }

  /** Removal forgets the removed prefix and keeps every other. */
  lemma {:induction false} RemoveStored<N>(t: Trie<N>, key: Key, len: nat, q: Key)
    requires 1 <= len <= |key| && WF(t, |key|)
    ensures Stored(Remove(t, key, len), q) == if q == key[..len] then None else Stored(t, q)
  {
    if t.Nil? || CommonBits(key, t.key) < t.len || len < t.len {
      if t.Node? && Stored(t, q).Some? {
        StoredExtends(t, q);
      }
    } else if t.len == len {
      ClearedStored(t, key, q);
      CompressCorrect(t.(vals := []), q);
    } else {
      var bit := key[t.len];
      var k := Remove(t.Kid(bit), key, len);
      RemoveCanonical(t.Kid(bit), key, len);
      RemoveBelow(t, key, len);
      RemoveStored(t.Kid(bit), key, len, q);
      KidStored(t, bit, k, q);
      CompressCorrect(t.WithKid(bit, k), q);
      assert t.len < |key[..len]| && key[..len][t.len] == bit;
    }
  }

  lemma {:induction false} ClearedStored<N>(t: Trie<N>, key: Key, q: Key)
    requires t.Node? && t.len <= |key| && Agree(key, t.key, t.len)
    ensures Stored(t.(vals := []), q) == if q == key[..t.len] then None else Stored(t, q)
  {
    var t' := t.(vals := []);
    assert t'.Kid(false) == t.Kid(false) && t'.Kid(true) == t.Kid(true);
  }

  // ----- Lookup

  ghost function Visible(vals: seq<Route>, ignore: set<string>): Option<Route> {
    if vals != [] && vals[0].iface !in ignore then Some(vals[0]) else None
  }

  /** The route the descent along `dst` ends with: the deepest visible one on the way. */
  ghost function Find<N>(t: Trie<N>, dst: Key, ignore: set<string>): Option<Route>
    requires Keyed(t, |dst|)
  {
    if t.Nil? || CommonBits(dst, t.key) < t.len then None else
    var deeper := if t.len < |dst| then Find(t.Kid(dst[t.len]), dst, ignore) else None;
    deeper.OrElse(Visible(t.vals, ignore))
  }

  /** The length of the prefix whose route `Find` returns. */
  ghost function FoundLen<N>(t: Trie<N>, dst: Key, ignore: set<string>): nat
    requires Keyed(t, |dst|)
  {
    if t.Nil? || CommonBits(dst, t.key) < t.len then 0
    else if t.len < |dst| && Find(t.Kid(dst[t.len]), dst, ignore).Some? then
      FoundLen(t.Kid(dst[t.len]), dst, ignore)
    else t.len
  }

  lemma {:induction false} FindStored<N>(t: Trie<N>, dst: Key, ignore: set<string>)
    requires WF(t, |dst|) && Find(t, dst, ignore).Some?
    ensures var n := FoundLen(t, dst, ignore);
            && n <= |dst| && Stored(t, dst[..n]) == Find(t, dst, ignore)
            && Find(t, dst, ignore).value.iface !in ignore && t.len <= n
  {
    if t.len < |dst| && Find(t.Kid(dst[t.len]), dst, ignore).Some? {
      FindStored(t.Kid(dst[t.len]), dst, ignore);
    }
  }

  lemma {:induction false} FindLongest<N>(t: Trie<N>, dst: Key, ignore: set<string>, n: nat)
    requires WF(t, |dst|) && n <= |dst|
    requires Stored(t, dst[..n]).Some? && Stored(t, dst[..n]).value.iface !in ignore
    ensures Find(t, dst, ignore).Some? && n <= FoundLen(t, dst, ignore)
  {
    StoredExtends(t, dst[..n]);
    assert Agree(dst, t.key, t.len) && CommonBits(dst, t.key) >= t.len;
    if t.len < n {
      assert dst[..n][t.len] == dst[t.len];
      FindLongest(t.Kid(dst[t.len]), dst, ignore, n);
    } else {
      assert Visible(t.vals, ignore) == Stored(t, dst[..n]);
      if t.len < |dst| && Find(t.Kid(dst[t.len]), dst, ignore).Some? {
        FindStored(t.Kid(dst[t.len]), dst, ignore);
      }
    }
  }

  // ----- The table as a map

  /** The trie stores exactly the routes of the map. */
  ghost predicate Models<N>(t: Trie<N>, m: map<Key, Route>) {
    forall p :: Stored(t, p) == if p in m then Some(m[p]) else None
  }

  ghost predicate Matches(m: map<Key, Route>, ignore: set<string>, dst: Key, p: Key) {
    p in m && p <= dst && m[p].iface !in ignore
  }

  /** Longest-prefix match on the plain map: the route of the longest stored prefix of `dst`
      whose adapter is not excluded, and otherwise the default route. */
  ghost predicate IsBestRoute(m: map<Key, Route>, ignore: set<string>, default: Option<Route>, dst: Key, res: Option<Route>) {
    || (res == default && forall p :: !Matches(m, ignore, dst, p))
    || exists p :: Matches(m, ignore, dst, p) && res == Some(m[p]) && forall q :: Matches(m, ignore, dst, q) ==> |q| <= |p|
  }

  /** `IsBestRoute` leaves no choice. */
  lemma BestRouteUnique(m: map<Key, Route>, ignore: set<string>, default: Option<Route>, dst: Key, res: Option<Route>, res': Option<Route>)
    requires IsBestRoute(m, ignore, default, dst, res) && IsBestRoute(m, ignore, default, dst, res')
    ensures res == res'
  {
    if p, q :| Matches(m, ignore, dst, p) && res == Some(m[p]) && Matches(m, ignore, dst, q) && res' == Some(m[q]) && |p| == |q| {
      assert p == dst[..|p|] == q;
    }
  }

  /** The descent in the trie is a longest-prefix match on the map. */
  lemma FindIsBestRoute<N>(t: Trie<N>, m: map<Key, Route>, ignore: set<string>, default: Option<Route>, dst: Key)
    requires WF(t, |dst|) && Models(t, m)
    ensures IsBestRoute(m, ignore, default, dst, Find(t, dst, ignore).OrElse(default))
  {
    var res := Find(t, dst, ignore);
    forall q | Matches(m, ignore, dst, q)
      ensures res.Some? && |q| <= FoundLen(t, dst, ignore)
    {
      assert q == dst[..|q|] && Stored(t, q) == Some(m[q]);
      FindLongest(t, dst, ignore, |q|);
    }
    if res.Some? {
      FindStored(t, dst, ignore);
      var p := dst[..FoundLen(t, dst, ignore)];
      assert Stored(t, p) == res;
      assert Matches(m, ignore, dst, p);
    }
  }
}
