/** A trie seen from one of its nodes: the node's subtrie and the path of ancestors above it.
    The table's loops walk down such a path and rebuild the trie along it. */
module TrieZipper {
  import opened Bits
  import opened PrefixTrie

  /** The path above a subtrie, innermost ancestor first. The subtrie is the ancestor's child
      on side `bit`; `sib` is the other child. */
  datatype Path<N> =
    | Top
    | In(tag: N, key: Key, len: nat, vals: seq<Route>, bit: bool, sib: Trie<N>, up: Path<N>)

  function Wrap<N>(c: Path<N>, t: Trie<N>): Trie<N>
    requires c.In?
  {
    Node(c.tag, c.key, c.len, c.vals, if c.bit then c.sib else t, if c.bit then t else c.sib)
  }

  function Plug<N>(c: Path<N>, t: Trie<N>): Trie<N>
    decreases c
  {
    if c.Top? then t else Plug(c.up, Wrap(c, t))
  }

  function Down<N>(c: Path<N>, t: Trie<N>, bit: bool): (c': Path<N>)
    requires t.Node?
    ensures Plug(c', t.Kid(bit)) == Plug(c, t)
  {
    In(t.tag, t.key, t.len, t.vals, bit, t.Kid(!bit), c)
  }

  /** The descent for `key`, to a depth below `len`, follows the path. */
  ghost predicate Toward<N>(c: Path<N>, key: Key, len: nat) {
    c.In? ==>
      && |c.key| == |key| && c.len < len && c.len < |key|
      && CommonBits(key, c.key) >= c.len && key[c.len] == c.bit
      && Toward(c.up, key, len)
  }

  lemma {:induction false} PlugKeyed<N>(c: Path<N>, t: Trie<N>, w: nat)
    requires Keyed(Plug(c, t), w)
    ensures Keyed(t, w)
    decreases c
  {
    if c.In? {
      PlugKeyed(c.up, Wrap(c, t), w);
    }
  }

  /** Inserting at the end of the descent is inserting into the whole trie. */
  lemma {:induction false} InsertPlug<N>(c: Path<N>, t: Trie<N>, key: Key, len: nat, r: Route, leaf: N, branch: N)
    requires len <= |key| && Toward(c, key, len) && Keyed(Plug(c, t), |key|)
    ensures Keyed(t, |key|)
    ensures Insert(Plug(c, t), key, len, r, leaf, branch) == Plug(c, Insert(t, key, len, r, leaf, branch))
    decreases c
  {
    PlugKeyed(c, t, |key|);
    if c.In? {
      InsertPlug(c.up, Wrap(c, t), key, len, r, leaf, branch);
      assert Wrap(c, t).Kid(c.bit) == t;
      assert Insert(Wrap(c, t), key, len, r, leaf, branch) == Wrap(c, Insert(t, key, len, r, leaf, branch));
    }
  }

  /** Plugging back with every ancestor compressed on the way up. */
  function PlugCompressed<N>(c: Path<N>, t: Trie<N>): Trie<N>
    decreases c
  {
    if c.Top? then t else PlugCompressed(c.up, Compress(Wrap(c, t)))
  }

  lemma {:induction false} RemovePlug<N>(c: Path<N>, t: Trie<N>, key: Key, len: nat)
    requires len <= |key| && Toward(c, key, len) && Keyed(Plug(c, t), |key|)
    ensures Keyed(t, |key|)
    ensures Remove(Plug(c, t), key, len) == PlugCompressed(c, Remove(t, key, len))
    decreases c
  {
    PlugKeyed(c, t, |key|);
    if c.In? {
      RemovePlug(c.up, Wrap(c, t), key, len);
      assert Wrap(c, t).Kid(c.bit) == t;
      assert Wrap(c, t).WithKid(c.bit, Remove(t, key, len)) == Wrap(c, Remove(t, key, len));
    }
  }

  /** Every ancestor holds a route or has another child. */
  ghost predicate Settled<N>(c: Path<N>) {
    c.In? ==> (c.vals != [] || c.sib.Node?) && Settled(c.up)
  }

  /** Above a subtrie that stays, compression changes nothing: the climb may stop. */
  lemma {:induction false} ClimbMayStop<N>(c: Path<N>, t: Trie<N>)
    requires Settled(c) && t.Node?
    ensures PlugCompressed(c, t) == Plug(c, t)
    decreases c
  {
    if c.In? {
      assert Compress(Wrap(c, t)) == Wrap(c, t);
      ClimbMayStop(c.up, Wrap(c, t));
    }
  }

  lemma {:induction false} StoredPlug<N>(c: Path<N>, t: Trie<N>, key: Key, len: nat)
    requires len <= |key| && Toward(c, key, len)
    ensures Stored(Plug(c, t), key[..len]) == Stored(t, key[..len])
    decreases c
  {
    if c.In? {
      StoredPlug(c.up, Wrap(c, t), key, len);
      assert key[..len][c.len] == c.bit && Wrap(c, t).Kid(c.bit) == t;
    }
  }
}
