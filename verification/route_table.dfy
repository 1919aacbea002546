/** The route table itself: linked nodes, updated in place. The ghost field `shape` is the trie
    the nodes form; every node of it is tagged with the object that holds it. */
module RouteTable {
  import opened Wrappers
  import opened Bits
  import opened PrefixTrie
  import opened TrieZipper

  class RtNode {
    var zero: RtNode?
    var one: RtNode?
    var key: Key
    var value: seq<Route>
    var bitLen: nat

    constructor (key: Key, value: seq<Route>, bitLen: nat)
      ensures Holds(this, key, bitLen, value, null, null)
    {
      this.key, this.value, this.bitLen := key, value, bitLen;
      zero, one := null, null;
    }

    function Child(bit: bool): RtNode?
      reads this
    {
      if bit then one else zero
    }

    method SetChild(bit: bool, n: RtNode?)
      modifies this`zero, this`one
      ensures zero == (if bit then old(zero) else n) && one == (if bit then n else old(one))
    {
      if bit { one := n; } else { zero := n; }
    }

    /** Overwrites every stored entry and appends one more. */
    method AddRoute(route: Route)
      modifies this`value
      ensures value == PrefixTrie.AddRoute(old(value), route)
    {
      for i := 0 to |value|
        invariant |value| == |old(value)|
        invariant forall j :: 0 <= j < i ==> value[j] == route
      {
        value := value[i := route];
      }
      value := value + [route];
    }
  }

  // ----- Linked nodes and the trie they form

  ghost predicate Holds(n: RtNode, key: Key, len: nat, vals: seq<Route>, zero: RtNode?, one: RtNode?)
    reads n
  {
    n.key == key && n.bitLen == len && n.value == vals && n.zero == zero && n.one == one
  }

  ghost function Ref(t: Trie<RtNode>): RtNode? {
    if t.Nil? then null else t.tag
  }

  ghost function Refs(t: Trie<RtNode>): set<RtNode> {
    if t.Nil? then {} else {t.tag} + Refs(t.kid0) + Refs(t.kid1)
  }

  ghost predicate Linked(t: Trie<RtNode>)
    reads Refs(t)
  {
    t.Node? ==>
      && Holds(t.tag, t.key, t.len, t.vals, Ref(t.kid0), Ref(t.kid1))
      && Linked(t.kid0) && Linked(t.kid1)
  }

  ghost predicate Distinct(t: Trie<RtNode>) {
    t.Node? ==>
      && t.tag !in Refs(t.kid0) && t.tag !in Refs(t.kid1) && Refs(t.kid0) !! Refs(t.kid1)
      && Distinct(t.kid0) && Distinct(t.kid1)
  }

  ghost function PathRefs(c: Path<RtNode>): set<RtNode> {
    if c.Top? then {} else {c.tag} + Refs(c.sib) + PathRefs(c.up)
  }

  /** The path's nodes are linked, and their open child is `hole`. */
  ghost predicate LinkedPath(c: Path<RtNode>, hole: RtNode?)
    reads PathRefs(c)
  {
    c.In? ==>
      && Holds(c.tag, c.key, c.len, c.vals, if c.bit then Ref(c.sib) else hole, if c.bit then hole else Ref(c.sib))
      && Linked(c.sib) && LinkedPath(c.up, c.tag)
  }

  ghost predicate DistinctPath(c: Path<RtNode>) {
    c.In? ==>
      && c.tag !in Refs(c.sib) && c.tag !in PathRefs(c.up) && Refs(c.sib) !! PathRefs(c.up)
      && Distinct(c.sib) && DistinctPath(c.up)
  }

  ghost function Parent(c: Path<RtNode>): RtNode? {
    if c.Top? then null else c.tag
  }

  /** A linked path and a linked subtrie, apart from each other, form a linked trie. */
  lemma {:induction false} PlugLinked(c: Path<RtNode>, t: Trie<RtNode>)
    requires LinkedPath(c, Ref(t)) && Linked(t)
    requires DistinctPath(c) && Distinct(t) && PathRefs(c) !! Refs(t)
    ensures Linked(Plug(c, t)) && Distinct(Plug(c, t)) && Refs(Plug(c, t)) == PathRefs(c) + Refs(t)
    decreases c
  {
    if c.In? {
      PlugLinked(c.up, Wrap(c, t));
    }
  }

  // ----- The table

  /** A route whose mask fits its address. */
  predicate RouteOk(r: Route) {
    r.family.Other? || (|r.addr| == Width(r.family) && r.ones <= |r.addr|)
  }

  /** The route's network key: the address, with the host bits cleared unless the mask is full. */
  function TablePrefix(r: Route): Key
    requires r.ones <= |r.addr|
  {
    if r.ones == |r.addr| then r.addr else Mask(r.addr, r.ones)
  }

  /** What an insertion at the end of a descent makes of the whole table. */
  lemma {:induction false} InsertedAt(c: Path<RtNode>, sub: Trie<RtNode>, key: Key, len: nat, r: Route,
                                      leaf: RtNode, branch: RtNode, m: map<Key, Route>)
    requires 1 <= len && Masked(key, len) && Toward(c, key, len)
    requires WF(Plug(c, sub), |key|) && Models(Plug(c, sub), m)
    ensures Keyed(sub, |key|)
    ensures var t := Plug(c, Insert(sub, key, len, r, leaf, branch));
            WF(t, |key|) && Models(t, m[key[..len] := r])
  {
    hide Insert;
    var whole := Plug(c, sub);
    InsertPlug(c, sub, key, len, r, leaf, branch);
    InsertKeyed(whole, key, len, r, leaf, branch);
    InsertCanonical(whole, key, len, r, leaf, branch);
    forall q
      ensures Stored(Insert(whole, key, len, r, leaf, branch), q) ==
              if q in m[key[..len] := r] then Some(m[key[..len] := r][q]) else None
    {
      InsertStored(whole, key, len, r, leaf, branch, q);
    }
  }

  /** What a removal at the end of a descent makes of the whole table. */
  lemma {:induction false} RemovedAt(c: Path<RtNode>, sub: Trie<RtNode>, key: Key, len: nat, m: map<Key, Route>)
    requires 1 <= len <= |key| && Toward(c, key, len)
    requires WF(Plug(c, sub), |key|) && Models(Plug(c, sub), m)
    ensures Keyed(sub, |key|)
    ensures var t := PlugCompressed(c, Remove(sub, key, len));
            WF(t, |key|) && Models(t, m - {key[..len]})
  {
    var whole := Plug(c, sub);
    RemovePlug(c, sub, key, len);
    RemoveKeyed(whole, key, len);
    RemoveCanonical(whole, key, len);
    forall q
      ensures Stored(Remove(whole, key, len), q) ==
              if q in m - {key[..len]} then Some((m - {key[..len]})[q]) else None
    {
      RemoveStored(whole, key, len, q);
    }
  }

  /** Where the walk to a prefix ends decides whether the prefix is stored. */
  lemma {:induction false} EndOfWalk<N>(c: Path<N>, t: Trie<N>, key: Key, len: nat)
    requires WF(t, |key|) && len <= |key| && Toward(c, key, len)
    requires t.Nil? || CommonBits(key, t.key) < t.len || len <= t.len
    ensures Stored(Plug(c, t), key[..len]).Some? <==>
            t.Node? && t.len == len && CommonBits(key, t.key) >= len && t.vals != []
  {
    StoredPlug(c, t, key, len);
    if t.Node? && Stored(t, key[..len]).Some? {
      StoredExtends(t, key[..len]);
    }
  }

  /** The nodes of a path, outermost first. */
  ghost function Stack(c: Path<RtNode>): seq<RtNode> {
    if c.Top? then [] else Stack(c.up) + [c.tag]
  }

  lemma {:induction false} KidLinked(t: Trie<RtNode>, w: nat, bit: bool)
    requires t.Node? && Linked(t) && WF(t, w)
    ensures Linked(t.Kid(bit)) && WF(t.Kid(bit), w) && t.tag.Child(bit) == Ref(t.Kid(bit))
    ensures Refs(t.Kid(bit)) <= Refs(t)
    ensures t.Kid(bit).Node? ==> t.len < t.Kid(bit).len
  {
  }

  /** One step of the descent along `dst`, with the best route so far. */
  lemma FindStep<N>(t: Trie<N>, dst: Key, ignore: set<string>, best: Option<Route>)
    requires t.Node? && Keyed(t, |dst|)
    ensures Find(t, dst, ignore).OrElse(best) ==
            if CommonBits(dst, t.key) < t.len then best
            else if t.len < |dst| then Find(t.Kid(dst[t.len]), dst, ignore).OrElse(Visible(t.vals, ignore).OrElse(best))
            else Visible(t.vals, ignore).OrElse(best)
  {
  }

  class Table {
    const family: Family
    var root: RtNode?
    var defaultRoute: Option<Route>
    var ignore: set<string>
    ghost var shape: Trie<RtNode>
    ghost var contents: map<Key, Route>

    ghost var repr: set<RtNode>

    /** The table stores what the map says, once the nodes form the given trie. */
    ghost predicate Stores(t: Trie<RtNode>, m: map<Key, Route>)
    {
      !family.Other? && WF(t, Width(family)) && Models(t, m)
    }

    /** The nodes form a canonical trie that stores exactly `contents`. */
    ghost predicate Valid()
      reads this, repr
    {
      Formed() && Stores(shape, contents)
    }

    ghost predicate Formed()
      reads this, repr
    {
      root == Ref(shape) && Refs(shape) <= repr && Linked(shape) && Distinct(shape)
    }

    constructor (family: Family)
      requires !family.Other?
      ensures Valid() && this.family == family && repr == {}
      ensures contents == map[] && defaultRoute == None && ignore == {}
    {
      this.family := family;
      root, defaultRoute, ignore := null, None, {};
      shape, contents, repr := Nil, map[], {};
    }

    /** Replaces `was` by `n` below `parent`, or at the root. */
    method Relink(parent: RtNode?, was: RtNode, n: RtNode?, ghost c: Path<RtNode>)
      requires parent == Parent(c) && LinkedPath(c, was) && DistinctPath(c) && was !in PathRefs(c)
      modifies this`root, parent
      ensures LinkedPath(c, n)
      ensures root == if c.Top? then n else old(root)
    {
      if parent == null {
        root := n;
        return;
      }
      if parent.zero == was {
        parent.zero := n;
        return;
      }
      parent.one := n;
    }

    /** The walk has reached the subtrie `sub`, below the path `c`. */
    ghost predicate At(c: Path<RtNode>, sub: Trie<RtNode>)
      reads this, repr
    {
      && root == Ref(shape) && shape == Plug(c, sub)
      && PathRefs(c) <= repr && Refs(sub) <= repr && PathRefs(c) !! Refs(sub)
      && LinkedPath(c, Ref(sub)) && DistinctPath(c)
      && Linked(sub) && Distinct(sub)
    }

    lemma {:induction false} StepDown(c: Path<RtNode>, sub: Trie<RtNode>, bit: bool)
      requires At(c, sub) && sub.Node?
      ensures At(Down(c, sub, bit), sub.Kid(bit)) && sub.tag.Child(bit) == Ref(sub.Kid(bit))
    {
    }

    /** One step of the walk toward a prefix of length `len`. */
    lemma {:induction false} WalkDown(c: Path<RtNode>, sub: Trie<RtNode>, key: Key, len: nat)
      requires At(c, sub) && sub.Node? && WF(sub, |key|) && Toward(c, key, len) && Settled(c)
      requires CommonBits(key, sub.key) >= sub.len && sub.len < len <= |key|
      ensures var c', sub' := Down(c, sub, key[sub.len]), sub.Kid(key[sub.len]);
              && At(c', sub') && WF(sub', |key|) && Toward(c', key, len) && Settled(c')
              && Stack(c') == Stack(c) + [sub.tag] && Parent(c') == sub.tag
              && Ref(sub') == sub.tag.Child(key[sub.len])
    {
      StepDown(c, sub, key[sub.len]);
    }

    /** Links the subtrie `sub` in place of `was`, and records the trie that results. */
    method Graft(parent: RtNode?, was: RtNode, n: RtNode?, ghost c: Path<RtNode>, ghost sub: Trie<RtNode>)
      requires parent == Parent(c) && LinkedPath(c, was) && DistinctPath(c) && was !in PathRefs(c)
      requires n == Ref(sub) && Linked(sub) && Distinct(sub) && PathRefs(c) !! Refs(sub)
      requires c.In? ==> root == Ref(Plug(c, Nil))
      requires PathRefs(c) <= repr && Refs(sub) <= repr
      modifies this`root, this`shape, parent
      ensures At(c, sub) && shape == Plug(c, sub) && Formed()
    {
      Relink(parent, was, n, c);
      PlugLinked(c, sub);
      RootOfPlug(c, Nil, sub);
      shape := Plug(c, sub);
    }

    /** The new prefix is an ancestor of `cur`. */
    method InsertAbove(parent: RtNode?, cur: RtNode, key: Key, len: nat, route: Route,
                       ghost c: Path<RtNode>, ghost sub: Trie<RtNode>) returns (node: RtNode)
      requires At(c, sub) && parent == Parent(c) && cur == Ref(sub)
      requires len < |sub.key|
      modifies this`root, this`shape, this`repr, parent
      ensures fresh(node) && repr == old(repr) + {node} && Formed()
      ensures shape == Plug(c, Leaf(node, key, len, route).WithKid(sub.key[len], sub))
    {
      hide Plug;
      node := new RtNode(key, [route], len);
      node.SetChild(cur.key[len], cur);
      repr := repr + {node};
      RootOfPlug(c, Nil, sub);
      Graft(parent, cur, node, c, Leaf(node, key, len, route).WithKid(sub.key[len], sub));
    }

    /** A branch point over `cur` and a node for the new prefix. */
    method NewBranch(cur: RtNode, key: Key, len: nat, route: Route, shared: nat, ghost sub: Trie<RtNode>)
      returns (node: RtNode, branch: RtNode)
      requires Linked(sub) && Refs(sub) <= repr && cur == Ref(sub) && shared < |sub.key| && shared <= |key|
      ensures fresh({node, branch}) && node != branch
      ensures Linked(Branch(sub, key, len, route, node, branch, shared))
    {
      var masked := MaskPrefix(key, shared);
      branch := new RtNode(masked, [], shared);
      var curBit := cur.key[shared];
      branch.SetChild(curBit, cur);
      node := new RtNode(key, [route], len);
      branch.SetChild(!curBit, node);
      assert Linked(Leaf(node, key, len, route));
    }

    /** The keys diverge before either prefix ends. */
    method InsertBranch(parent: RtNode?, cur: RtNode, key: Key, len: nat, route: Route, shared: nat,
                        ghost c: Path<RtNode>, ghost sub: Trie<RtNode>) returns (node: RtNode, branch: RtNode)
      requires At(c, sub) && parent == Parent(c) && cur == Ref(sub)
      requires shared < |sub.key| && shared <= |key|
      modifies this`root, this`shape, this`repr, parent
      ensures fresh({node, branch}) && repr == old(repr) + {node, branch} && Formed()
      ensures shape == Plug(c, Branch(sub, key, len, route, node, branch, shared))
    {
      hide Plug;
      node, branch := NewBranch(cur, key, len, route, shared, sub);
      repr := repr + {node, branch};
      ghost var sub' := Branch(sub, key, len, route, node, branch, shared);
      assert Refs(Leaf(node, key, len, route)) == {node};
      RootOfPlug(c, Nil, sub);
      Graft(parent, cur, branch, c, sub');
    }

    /** Hangs a node on the free side of `cur`. */
    method Hang(cur: RtNode, bit: bool, n: RtNode, ghost c: Path<RtNode>)
      requires c.In? && c.tag == cur && c.bit == bit && LinkedPath(c, null) && DistinctPath(c)
      requires PathRefs(c) <= repr
      modifies cur
      ensures LinkedPath(c, n)
    {
      cur.SetChild(bit, n);
    }

    /** `cur` has no child on the new prefix's side. */
    method InsertBelow(cur: RtNode, key: Key, len: nat, route: Route,
                       ghost c: Path<RtNode>, ghost sub: Trie<RtNode>) returns (node: RtNode)
      requires At(c, sub) && cur == Ref(sub)
      requires sub.len < |key| && sub.Kid(key[sub.len]).Nil?
      modifies this`shape, this`repr, cur
      ensures fresh(node) && repr == old(repr) + {node} && Formed()
      ensures shape == Plug(c, sub.WithKid(key[sub.len], Leaf(node, key, len, route)))
    {
      ghost var c' := Down(c, sub, key[sub.len]);
      StepDown(c, sub, key[sub.len]);
      node := new RtNode(key, [route], len);
      Hang(cur, key[cur.bitLen], node, c');
      repr := repr + {node};
      PlugLinked(c', Leaf(node, key, len, route));
      RootOfPlug(c', Nil, Leaf(node, key, len, route));
      shape := Plug(c', Leaf(node, key, len, route));
    }

    /** `cur` represents the new prefix already. */
    method InsertSame(cur: RtNode, route: Route, ghost c: Path<RtNode>, ghost sub: Trie<RtNode>)
      requires At(c, sub) && cur == Ref(sub)
      modifies this`shape, cur
      ensures Formed()
      ensures shape == Plug(c, sub.(vals := AddRoute(sub.vals, route)))
    {
      cur.AddRoute(route);
      ghost var sub' := sub.(vals := AddRoute(sub.vals, route));
      PlugLinked(c, sub');
      RootOfPlug(c, sub, sub');
      shape := Plug(c, sub');
    }

    /** Inserts at `cur`, where the descent for the prefix ends. */
    method InsertHere(parent: RtNode?, cur: RtNode, key: Key, len: nat, route: Route,
                      ghost c: Path<RtNode>, ghost sub: Trie<RtNode>) returns (ghost leaf: RtNode, ghost branch: RtNode)
      requires At(c, sub) && parent == Parent(c) && cur == Ref(sub)
      requires Keyed(sub, |key|) && len <= |key|
      requires CommonBits(key, sub.key) < sub.len || len <= sub.len || sub.Kid(key[sub.len]).Nil?
      modifies this`root, this`shape, this`repr, parent, cur
      ensures fresh(repr - old(repr)) && old(repr) <= repr && Formed()
      ensures shape == Plug(c, PrefixTrie.Insert(sub, key, len, route, leaf, branch))
    {
      hide Plug;
      var shared := Min(CommonBits(key, cur.key), cur.bitLen);
      if shared >= len && len < cur.bitLen {
        var node := InsertAbove(parent, cur, key, len, route, c, sub);
        leaf, branch := node, node;
      } else if shared >= len {
        InsertSame(cur, route, c, sub);
        leaf, branch := cur, cur;
      } else if shared == cur.bitLen {
        var node := InsertBelow(cur, key, len, route, c, sub);
        leaf, branch := node, node;
      } else {
        leaf, branch := InsertBranch(parent, cur, key, len, route, shared, c, sub);
      }
    }

    /** Walks down while the node's prefix covers the new one and has a child on its side. */
    method Descend(key: Key, len: nat) returns (parent: RtNode?, cur: RtNode, ghost c: Path<RtNode>, ghost sub: Trie<RtNode>)
      requires Valid() && root != null && |key| == Width(family) && len <= |key|
      ensures At(c, sub) && cur == Ref(sub) && parent == Parent(c)
      ensures WF(sub, |key|) && Toward(c, key, len)
      ensures CommonBits(key, sub.key) < sub.len || len <= sub.len || sub.Kid(key[sub.len]).Nil?
    {
      parent, cur := null, root;
      c, sub := Top, shape;
      while CommonBits(key, cur.key) >= cur.bitLen && cur.bitLen < len && cur.Child(key[cur.bitLen]) != null
        invariant At(c, sub) && cur == Ref(sub) && parent == Parent(c)
        invariant WF(sub, |key|) && Toward(c, key, len) && Settled(c)
        decreases sub
      {
        WalkDown(c, sub, key, len);
        parent, cur := cur, cur.Child(key[cur.bitLen]);
        c, sub := Down(c, sub, key[sub.len]), sub.Kid(key[sub.len]);
      }
    }

    /** Inserts a prefix that is not the default route. */
    method InsertPrefix(key: Key, len: nat, route: Route)
      requires Valid() && |key| == Width(family) && 1 <= len && Masked(key, len)
      modifies this`root, this`shape, this`repr, this`contents, repr
      ensures Valid() && fresh(repr - old(repr))
      ensures contents == old(contents)[key[..len] := route]
    {
      if root == null {
        ghost var leaf := InsertFirst(key, len, route);
        InsertedAt(Top, Nil, key, len, route, leaf, leaf, contents);
      } else {
        InsertDeeper(key, len, route);
      }
      contents := contents[key[..len] := route];
    }

    method InsertDeeper(key: Key, len: nat, route: Route)
      requires Valid() && root != null && |key| == Width(family) && 1 <= len && Masked(key, len)
      modifies this`root, this`shape, this`repr, repr
      ensures Formed() && fresh(repr - old(repr))
      ensures Stores(shape, contents[key[..len] := route])
    {
      ghost var leaf, branch;
      var parent, cur, c, sub := Descend(key, len);
      leaf, branch := InsertHere(parent, cur, key, len, route, c, sub);
      InsertedAt(c, sub, key, len, route, leaf, branch, contents);
    }

    method InsertFirst(key: Key, len: nat, route: Route) returns (ghost leaf: RtNode)
      modifies this`root, this`shape, this`repr
      ensures fresh(repr - old(repr)) && Formed() && shape == Leaf(leaf, key, len, route)
    {
      var node := new RtNode(key, [route], len);
      root := node;
      repr := repr + {node};
      shape := Leaf(node, key, len, route);
      leaf := node;
    }

    // ----- Remove

    lemma {:induction false} StepUp(c: Path<RtNode>, sub: Trie<RtNode>)
      requires At(c, sub) && c.In?
      ensures At(c.up, Wrap(c, sub))
    {
    }

    /** Puts the only child of the value-less `node`, if any, in its place. */
    method Lift(parent: RtNode?, node: RtNode, ghost c: Path<RtNode>, ghost sub: Trie<RtNode>)
      requires At(c, sub) && node == Ref(sub) && parent == Parent(c)
      requires sub.vals == [] && (sub.kid0.Nil? || sub.kid1.Nil?)
      modifies this`root, this`shape, parent
      ensures At(c, Compress(sub)) && Formed() && shape == Plug(c, Compress(sub))
    {
      hide Plug;
      var repl := if node.zero == null then node.one else node.zero;
      RootOfPlug(c, Nil, sub);
      Graft(parent, node, repl, c, Compress(sub));
    }

    /** Removes the value-less `node` and collapses every ancestor that is left a pure branch
        with a single child. */
    method Collapse(path: seq<RtNode>, node: RtNode, ghost c: Path<RtNode>, ghost sub: Trie<RtNode>)
      requires At(c, sub) && node == Ref(sub) && path == Stack(c) && Settled(c)
      modifies this`root, this`shape, repr
      ensures Formed() && shape == PlugCompressed(c, Compress(sub))
    {
      var path, node: RtNode := path, node;
      ghost var c, sub := c, sub;
      ghost var goal := PlugCompressed(c, Compress(sub));
      while true
        invariant At(c, sub) && sub.Node? && node == sub.tag && path == Stack(c) && Settled(c)
        invariant goal == PlugCompressed(c, Compress(sub)) && repr == old(repr)
        decreases c
      {
        if |node.value| > 0 || (node.zero != null && node.one != null) {
          ClimbMayStop(c, sub);
          PlugLinked(c, sub);
          return;
        }
        var parent: RtNode? := null;
        if |path| > 0 {
          parent, path := path[|path| - 1], path[..|path| - 1];
        }
        Lift(parent, node, c, sub);
        if parent == null {
          return;
        }
        node := parent;
        StepUp(c, Compress(sub));
        c, sub := c.up, Wrap(c, Compress(sub));
      }
    }

    /** Walks to the node that holds routes for exactly this prefix, if there is one. */
    method FindExact(key: Key, len: nat)
      returns (found: bool, path: seq<RtNode>, cur: RtNode?, ghost c: Path<RtNode>, ghost sub: Trie<RtNode>)
      requires Valid() && |key| == Width(family) && len <= |key|
      ensures found <==> Stored(shape, key[..len]).Some?
      ensures found ==> At(c, sub) && sub.Node? && cur == sub.tag && path == Stack(c) && Settled(c)
      ensures found ==> WF(sub, |key|) && Toward(c, key, len) && sub.len == len && CommonBits(key, sub.key) >= len
    {
      found, path, cur := false, [], root;
      c, sub := Top, shape;
      while cur != null
        invariant At(c, sub) && cur == Ref(sub) && path == Stack(c) && Settled(c)
        invariant WF(sub, |key|) && Toward(c, key, len) && !found
        decreases sub
      {
        if CommonBits(key, cur.key) < cur.bitLen {
          EndOfWalk(c, sub, key, len);
          return;
        }
        if cur.bitLen == len {
          break;
        }
        if cur.bitLen > len {
          EndOfWalk(c, sub, key, len);
          return;
        }
        WalkDown(c, sub, key, len);
        path := path + [cur];
        cur := cur.Child(key[cur.bitLen]);
        c, sub := Down(c, sub, key[sub.len]), sub.Kid(key[sub.len]);
      }
      EndOfWalk(c, sub, key, len);
      found := cur != null && |cur.value| > 0;
    }

    /** Takes the routes off `cur`. */
    method Clear(cur: RtNode, ghost c: Path<RtNode>, ghost sub: Trie<RtNode>)
      requires At(c, sub) && cur == Ref(sub)
      modifies this`shape, cur`value
      ensures At(c, sub.(vals := []))
    {
      cur.value := [];
      RootOfPlug(c, sub, sub.(vals := []));
      shape := Plug(c, sub.(vals := []));
    }

    /** Takes the node that holds exactly this prefix out of the table. */
    method RemoveFound(path: seq<RtNode>, cur: RtNode, key: Key, len: nat, ghost c: Path<RtNode>, ghost sub: Trie<RtNode>)
      requires At(c, sub) && cur == Ref(sub) && path == Stack(c) && Settled(c)
      requires Keyed(sub, |key|) && sub.len == len && CommonBits(key, sub.key) >= len
      modifies this`root, this`shape, repr
      ensures Formed() && shape == PlugCompressed(c, PrefixTrie.Remove(sub, key, len))
    {
      Clear(cur, c, sub);
      Collapse(path, cur, c, sub.(vals := []));
    }

    /** Removes a prefix that is not the default route. */
    method RemovePrefix(key: Key, len: nat) returns (removed: bool)
      requires Valid() && |key| == Width(family) && 1 <= len <= |key|
      modifies this`root, this`shape, this`contents, repr
      ensures Valid() && repr == old(repr)
      ensures removed <==> key[..len] in old(contents)
      ensures contents == old(contents) - {key[..len]}
    {
      removed := RemoveStored(key, len);
      contents := contents - {key[..len]};
    }

    method RemoveStored(key: Key, len: nat) returns (removed: bool)
      requires Valid() && |key| == Width(family) && 1 <= len <= |key|
      modifies this`root, this`shape, repr
      ensures Formed() && removed == (key[..len] in contents)
      ensures Stores(shape, contents - {key[..len]})
    {
      var path, cur;
      ghost var c, sub;
      removed, path, cur, c, sub := FindExact(key, len);
      if removed {
        RemovedAt(c, sub, key, len, contents);
        RemoveFound(path, cur, key, len, c, sub);
      }
    }

    // ----- The table's interface

    method Insert(route: Route) returns (inserted: bool)
      requires Valid() && RouteOk(route)
      modifies this, repr
      ensures Valid() && fresh(repr - old(repr)) && ignore == old(ignore)
      ensures inserted == (route.family == family)
      ensures defaultRoute == if inserted && route.ones == 0 then Some(route) else old(defaultRoute)
      ensures contents == if inserted && route.ones != 0
                          then old(contents)[route.addr[..route.ones] := route] else old(contents)
    {
      if family != route.family {
        return false;
      }
      var len := route.ones;
      if len == 0 {
        defaultRoute := Some(route);
        return true;
      }
      var key := TablePrefix(route);
      assert key[..len] == route.addr[..len];
      InsertPrefix(key, len, route);
      return true;
    }

    method Remove(route: Route) returns (removed: bool)
      requires Valid() && RouteOk(route)
      modifies this, repr
      ensures Valid() && repr == old(repr) && ignore == old(ignore)
      ensures removed <==> route.family == family &&
                           if route.ones == 0 then old(defaultRoute).Some? else route.addr[..route.ones] in old(contents)
      ensures defaultRoute == if route.family == family && route.ones == 0 then None else old(defaultRoute)
      ensures contents == if route.family == family && route.ones != 0
                          then old(contents) - {route.addr[..route.ones]} else old(contents)
    {
      if family != route.family {
        return false;
      }
      var len := route.ones;
      if len == 0 {
        removed := defaultRoute.Some?;
        defaultRoute := None;
        return;
      }
      var key := TablePrefix(route);
      assert key[..len] == route.addr[..len];
      removed := RemovePrefix(key, len);
    }

    method ExcludeAdapter(names: seq<string>)
      requires Valid()
      modifies this`ignore
      ensures Valid() && ignore == old(ignore) + (set n | n in names)
    {
      for i := 0 to |names|
        invariant ignore == old(ignore) + (set n | n in names[..i])
      {
        ignore := ignore + {names[i]};
      }
      assert names[..|names|] == names;
    }

    /** The routes of one node: the first that is not excluded wins. */
    method Consider(cur: RtNode, best: Option<Route>, bestLen: int) returns (best': Option<Route>, bestLen': int)
      requires AllSame(cur.value) && (cur.value != [] ==> bestLen < cur.bitLen)
      ensures best' == Visible(cur.value, ignore).OrElse(best)
      ensures bestLen' == bestLen || bestLen' == cur.bitLen
    {
      best', bestLen' := best, bestLen;
      for i := 0 to |cur.value|
        invariant i == 0 ==> best' == best && bestLen' == bestLen
        invariant i > 0 ==> best' == Visible(cur.value, ignore).OrElse(best)
        invariant bestLen' == if i > 0 && Visible(cur.value, ignore).Some? then cur.bitLen else bestLen
      {
        var r := cur.value[i];
        if r.iface in ignore {
          continue;
        }
        if cur.bitLen > bestLen' {
          best', bestLen' := Some(r), cur.bitLen;
        }
      }
    }

    /** The descent along `dst`. */
    method Search(dst: Key) returns (best: Option<Route>)
      requires Valid() && |dst| == Width(family)
      ensures best == Find(shape, dst, ignore).OrElse(defaultRoute)
    {
      best := defaultRoute;
      var bestLen := if defaultRoute.Some? then 0 else -1;
      var cur := root;
      ghost var sub := shape;
      while cur != null
        invariant cur == Ref(sub) && Refs(sub) <= repr && Linked(sub) && WF(sub, |dst|)
        invariant bestLen <= 0 || (sub.Node? ==> bestLen < sub.len)
        invariant Find(shape, dst, ignore).OrElse(defaultRoute) == Find(sub, dst, ignore).OrElse(best)
        decreases sub
      {
        FindStep(sub, dst, ignore, best);
        if CommonBits(dst, cur.key) < cur.bitLen {
          return;
        }
        best, bestLen := Consider(cur, best, bestLen);
        if cur.bitLen >= |dst| {
          return;
        }
        KidLinked(sub, |dst|, dst[sub.len]);
        cur := cur.Child(dst[cur.bitLen]);
        sub := sub.Kid(dst[sub.len]);
      }
    }

    /** The best, most specific route for a destination of the given family. */
    method Lookup(dstFamily: Family, dst: Key) returns (best: Option<Route>)
      requires Valid() && (dstFamily == family ==> |dst| == Width(family))
      ensures dstFamily != family ==> best == None
      ensures dstFamily == family ==> IsBestRoute(contents, ignore, defaultRoute, dst, best)
    {
      if dstFamily != family {
        return None;
      }
      best := Search(dst);
      FindIsBestRoute(shape, contents, ignore, defaultRoute, dst);
    }
  }

  lemma {:induction false} RootOfPlug(c: Path<RtNode>, s: Trie<RtNode>, t: Trie<RtNode>)
    ensures c.In? ==> Ref(Plug(c, s)) == Ref(Plug(c, t))
    decreases c
  {
    if c.In? {
      RootOfPlug(c.up, Wrap(c, s), Wrap(c, t));
    }
  }
}
