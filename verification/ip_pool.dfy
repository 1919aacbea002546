/** The pool of tunnel addresses: the lowest free host address of a network, by a set of keys. */
module IpPool {
  import opened Wrappers
  import opened Sets
  import opened Bytes

  // ----- Addresses as numbers

  /** The bytes of a number without leading zeros. */
  function MinimalBytes(n: nat): bytes {
    if n == 0 then [] else MinimalBytes(n / 256) + [n % 256]
  }

  /** A 128-bit key in two halves of 64 bits. */
  datatype Key = Key(hi: nat, lo: nat)

  const HALF := 0x1_0000_0000_0000_0000

  function KeyOf(n: nat): Key {
    if n < HALF then Key(0, n) else Key(n / HALF % HALF, n % HALF)
  }

  /** No two addresses share a key. */
  lemma KeyInjective(m: nat, n: nat)
    requires m < HALF * HALF && n < HALF * HALF && KeyOf(m) == KeyOf(n)
    ensures m == n
  {
    KeyValue(m);
    KeyValue(n);
  }

  lemma KeyValue(n: nat)
    requires n < HALF * HALF
    ensures KeyOf(n).hi * HALF + KeyOf(n).lo == n
  {
    assert n / HALF < HALF;
  }

  datatype Family = Inet | Inet6

  function AddressBytes(family: Family): nat {
    if family.Inet? then 4 else 16
  }

  const V4_MAPPED: bytes := [0, 0, 0, 0, 0, 0, 0, 0, 0, 0, 0xFF, 0xFF]

  /** The number of an address; an address that is not one of the family counts as zero. */
  function ToNumber(family: Family, ip: bytes): nat {
    match family
    case Inet =>
      if |ip| == 4 then FromBigEndian(ip)
      else if |ip| == 16 && ip[..12] == V4_MAPPED then FromBigEndian(ip[12..])
      else 0
    case Inet6 =>
      if |ip| == 16 then FromBigEndian(ip)
      else if |ip| == 4 then FromBigEndian(V4_MAPPED + ip)
      else 0
  }

  lemma {:induction false} MinimalRoundTrip(n: nat)
    ensures FromBigEndian(MinimalBytes(n)) == n
  {
    if n > 0 {
      MinimalRoundTrip(n / 256);
      assert MinimalBytes(n)[..|MinimalBytes(n)| - 1] == MinimalBytes(n / 256);
    }
  }

  lemma {:induction false} MinimalLength(n: nat, k: nat)
    ensures n < Power(256, k) <==> |MinimalBytes(n)| <= k
    decreases k
  {
    PowerPositive(k);
    if k > 0 && n > 0 {
      MinimalLength(n / 256, k - 1);
    }
  }

  lemma {:induction false} PowerPositive(k: nat)
    ensures Power(256, k) > 0
  {
    if k > 0 {
      PowerPositive(k - 1);
    }
  }

  lemma FromBigEndianLast(s: bytes, x: byte)
    ensures FromBigEndian(s + [x]) == FromBigEndian(s) * 256 + x
  {
    assert (s + [x])[..|s|] == s;
  }

  lemma Horner(a: nat, p: nat, b: nat, x: nat)
    ensures (a * p + b) * 256 + x == a * (256 * p) + (b * 256 + x)
  {
  }

  lemma {:induction false} FromBigEndianPrefix(a: bytes, b: bytes)
    ensures FromBigEndian(a + b) == FromBigEndian(a) * Power(256, |b|) + FromBigEndian(b)
  {
    if b == [] {
      assert a + b == a;
    } else {
      var c, x := b[..|b| - 1], b[|b| - 1];
      assert b == c + [x] && a + b == (a + c) + [x];
      FromBigEndianPrefix(a, c);
      FromBigEndianLast(a + c, x);
      FromBigEndianLast(c, x);
      Horner(FromBigEndian(a), Power(256, |c|), FromBigEndian(c), x);
    }
  }

  /** An address handed out without its leading zeros is understood when it comes back exactly when
      it has none. */
  lemma ReturnsIff(family: Family, n: nat)
    requires 0 < n < Power(256, AddressBytes(family))
    ensures ToNumber(family, MinimalBytes(n)) == n <==> Power(256, AddressBytes(family) - 1) <= n
  {
    var w := AddressBytes(family);
    MinimalRoundTrip(n);
    MinimalLength(n, w);
    MinimalLength(n, w - 1);
    if family.Inet6? && |MinimalBytes(n)| == 4 {
      FromBigEndianPrefix(V4_MAPPED, MinimalBytes(n));
      MappedPositive();
    }
  }

  /** In its full width every address is understood, and an IPv4 address in its IPv6 form, too. */
  lemma FullWidth(family: Family, n: nat)
    requires n < Power(256, AddressBytes(family))
    ensures ToNumber(family, BigEndian(n, AddressBytes(family))) == n
    ensures n < Power(256, 4) ==> ToNumber(family, BigEndian(n, 4)) == ToNumber(family, V4_MAPPED + BigEndian(n, 4))
  {
    hide Power, FromBigEndian;
    BigEndianRoundTrip(n, AddressBytes(family));
    var long := V4_MAPPED + BigEndian(n, 4);
    assert long[..12] == V4_MAPPED && long[12..] == BigEndian(n, 4);
  }

  /** The address 0.1.2.3 comes out as three bytes, which count as no address. */
  lemma LeadingZeroMisread()
    ensures MinimalBytes(0x1_0203) == [1, 2, 3] && ToNumber(Inet, MinimalBytes(0x1_0203)) == 0
  {
    assert MinimalBytes(1) == MinimalBytes(0) + [1];
    assert MinimalBytes(0x102) == MinimalBytes(1) + [2];
    assert MinimalBytes(0x1_0203) == MinimalBytes(0x102) + [3];
  }

  lemma MappedPositive()
    ensures FromBigEndian(V4_MAPPED) > 0 && Power(256, 4) > 0
  {
    assert V4_MAPPED[11] == 0xFF;
  }

  // ----- The pool

  /** The `n` numbers from `from` on. */
  ghost function Range(from: nat, n: nat): (r: set<nat>)
    ensures forall k :: k in r <==> from <= k < from + n
  {
    if n == 0 then {} else Range(from, n - 1) + {from + n - 1}
  }

  lemma {:induction false} RangeSize(from: nat, n: nat)
    ensures |Range(from, n)| == n
  {
    if n > 0 {
      RangeSize(from, n - 1);
    }
  }

  class Pool {
    const family: Family
    /** The network address, and the number of addresses in the network. */
    const base: nat
    const size: nat
    var used: set<Key>
    /** The addresses in use, as numbers. */
    ghost var taken: set<nat>

    ghost predicate Valid()
      reads this
    {
      && base + size <= Power(256, AddressBytes(family)) <= HALF * HALF
      && (forall n :: n in taken ==> n < HALF * HALF)
      && forall n: nat :: n < HALF * HALF ==> (KeyOf(n) in used <==> n in taken)
    }

    constructor (family: Family, base: nat, hostBits: nat)
      requires base + Power(2, hostBits) <= Power(256, AddressBytes(family))
      ensures Valid() && taken == {} && this.family == family && this.base == base && size == Power(2, hostBits)
    {
      this.family, this.base, this.size := family, base, Power(2, hostBits);
      used, taken := {}, {};
      new;
      AddressSpace(family);
    }

    /** Hands out the lowest free host address, and fails exactly when there is none. */
    method Allocate() returns (r: Result<bytes>, ghost n: nat)
      requires Valid()
      modifies this
      ensures Valid()
      ensures r.Success? ==>
                && r.value == MinimalBytes(n) && base < n < base + size - 1 && n !in old(taken)
                && taken == old(taken) + {n} && forall k :: base < k < n ==> k in old(taken)
      ensures r.Success? ==> (ToNumber(family, r.value) == n <==> Power(256, AddressBytes(family) - 1) <= n)
      ensures r.Failure? ==> taken == old(taken) && forall k :: base < k < base + size - 1 ==> k in taken
      ensures |old(taken)| < size - 2 ==> r.Success?
    {
      hide ToNumber, MinimalBytes, Power, KeyOf, AddressBytes;
      var addr, i := base + 1, 0;
      n := 0;
      while i < size - 2
        invariant 0 <= i && addr == base + 1 + i && (0 < i ==> i <= size - 2)
        invariant Valid() && used == old(used) && taken == old(taken)
        invariant forall k :: base < k < addr ==> k in taken
      {
        if KeyOf(addr) !in used {
          MarkUsed(addr);
          ReturnsIff(family, addr);
          return Success(MinimalBytes(addr)), addr;
        }
        addr, i := addr + 1, i + 1;
      }
      r := Failure;
      if 2 <= size {
        Full(base + 1, size - 2, taken);
      }
    }

    method MarkUsed(n: nat)
      requires Valid() && n < HALF * HALF
      modifies this
      ensures Valid() && taken == old(taken) + {n}
    {
      forall k: nat | k < HALF * HALF && KeyOf(k) == KeyOf(n)
        ensures k == n
      {
        KeyInjective(k, n);
      }
      used, taken := used + {KeyOf(n)}, taken + {n};
    }

    method SetUsed(ip: bytes)
      requires Valid()
      modifies this
      ensures Valid() && taken == old(taken) + {ToNumber(family, ip)}
    {
      NumberBound(family, ip);
      MarkUsed(ToNumber(family, ip));
    }

    method Release(ip: bytes)
      requires Valid()
      modifies this
      ensures Valid() && taken == old(taken) - {ToNumber(family, ip)}
    {
      var n := ToNumber(family, ip);
      NumberBound(family, ip);
      forall k: nat | k < HALF * HALF && KeyOf(k) == KeyOf(n)
        ensures k == n
      {
        KeyInjective(k, n);
      }
      used, taken := used - {KeyOf(n)}, taken - {n};
    }
  }

  lemma AddressSpace(family: Family)
    ensures Power(256, AddressBytes(family)) <= HALF * HALF
  {
    assert Power(256, 4) == 0x1_0000_0000;
    assert Power(256, 8) == HALF;
    assert Power(256, 12) == 0x1_0000_0000 * HALF;
    assert Power(256, 16) == HALF * HALF;
  }

  lemma NumberBound(family: Family, ip: bytes)
    ensures ToNumber(family, ip) < HALF * HALF
  {
    AddressSpace(Inet);
    AddressSpace(Inet6);
    if |ip| == 16 {
      FromBigEndianBound(ip);
      FromBigEndianBound(ip[12..]);
    } else if |ip| == 4 {
      FromBigEndianBound(ip);
      FromBigEndianBound(V4_MAPPED + ip);
    }
  }

  /** A pool with every host address in use has as many in use as there are host addresses. */
  lemma Full(from: nat, n: nat, taken: set<nat>)
    requires forall k :: from <= k < from + n ==> k in taken
    ensures n <= |taken|
  {
    RangeSize(from, n);
    SubsetSize(Range(from, n), taken);
  }

  /** A server's addresses: the pool, with the adapter's own address set aside. */
  class Leases {
    const pool: Pool
    const adapter: nat
    ghost var leased: set<nat>
    /** The adapter's address is set aside: it is, unless it was given back. */
    ghost var aside: bool

    /** The addresses nobody may be given: those leased, and the adapter's. */
    ghost function InUse(): set<nat>
      reads this
    {
      leased + if aside then {adapter} else {}
    }

    ghost predicate Usable(n: nat)
      reads this, pool
    {
      pool.base < n < pool.base + pool.size - 1
    }

    /** Every address leased is a host address of the network, the adapter's is not leased while it is
        set aside, and the pool has exactly these in use. */
    ghost predicate Valid()
      reads this, pool
    {
      && pool.Valid() && pool.taken == InUse() && (aside ==> adapter !in leased)
      && forall n :: n in leased ==> Usable(n)
    }

    constructor (family: Family, base: nat, hostBits: nat, adapterIp: bytes)
      requires base + Power(2, hostBits) <= Power(256, AddressBytes(family))
      ensures Valid() && fresh(pool) && leased == {} && aside && adapter == ToNumber(family, adapterIp)
      ensures pool.family == family && pool.base == base && pool.size == Power(2, hostBits)
    {
      var p := new Pool(family, base, hostBits);
      p.SetUsed(adapterIp);
      pool, adapter, leased, aside := p, ToNumber(family, adapterIp), {}, true;
    }

    /** Leases the lowest host address that is not in use, and fails exactly when all are. The bytes
        given out name the address again exactly when its leading byte is not zero. */
    method Allocate() returns (r: Result<bytes>, ghost n: nat)
      requires Valid()
      modifies this, pool
      ensures Valid() && aside == old(aside)
      ensures r.Success? ==>
                && Usable(n) && n !in old(InUse()) && leased == old(leased) + {n}
                && r.value == MinimalBytes(n) && forall k: nat :: Usable(k) && k < n ==> k in old(InUse())
      ensures r.Success? ==>
                (ToNumber(pool.family, r.value) == n <==> Power(256, AddressBytes(pool.family) - 1) <= n)
      ensures r.Failure? ==> leased == old(leased) && forall k: nat :: Usable(k) ==> k in InUse()
      ensures |old(leased)| + 1 < pool.size - 2 ==> r.Success?
    {
      hide ToNumber, MinimalBytes, Power, KeyOf, AddressBytes;
      r, n := pool.Allocate();
      assert old(pool.taken) == old(InUse());
      if r.Success? {
        leased := leased + {n};
      }
    }

    /** Gives an address back: the adapter's, too, if it is named. */
    method Release(ip: bytes)
      requires Valid()
      modifies this, pool
      ensures Valid() && leased == old(leased) - {ToNumber(pool.family, ip)}
      ensures aside == (old(aside) && ToNumber(pool.family, ip) != adapter)
    {
      pool.Release(ip);
      leased := leased - {ToNumber(pool.family, ip)};
      aside := aside && ToNumber(pool.family, ip) != adapter;
    }
  }
}
