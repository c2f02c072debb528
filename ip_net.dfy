/** Parsed IP addresses and strict CIDR networks, and the containment test
    `address in network` that the cache scan applies to every entry.
    Addresses and network numbers are unbounded naturals kept below 2^32
    (IPv4) or 2^128 (IPv6) by their subset types. */
module IpNet {

  datatype Version = V4 | V6

  /** Width in bits of an address of the given version. */
  function Bits(v: Version): (w: nat)
    ensures w == 32 || w == 128
  {
    match v
    case V4 => 32
    case V6 => 128
  }

  function Pow2(n: nat): (r: nat)
    ensures r >= 1
  {
    if n == 0 then 1 else 2 * Pow2(n - 1)
  }

  datatype IpAddress = IpAddress(version: Version, value: nat)

  /** An address as the address parser yields it: its value fits the version's width. */
  type Address = a: IpAddress | a.value < Pow2(Bits(a.version)) witness IpAddress(V4, 0)

  datatype IpNetwork = IpNetwork(version: Version, network: nat, prefixLen: nat)

  /** What a strict network parse accepts: the prefix length fits the width,
      the network number fits the width, and no host bit is set. */
  predicate Strict(n: IpNetwork) {
    && n.prefixLen <= Bits(n.version)
    && n.network < Pow2(Bits(n.version))
    && n.network % Pow2(Bits(n.version) - n.prefixLen) == 0
  }

  type Network = n: IpNetwork | Strict(n) witness IpNetwork(V4, 0, 0)

  /** Number of host bits of a network: the bits below the prefix. */
  function HostBits(n: Network): (h: nat)
    ensures h + n.prefixLen == Bits(n.version)
  {
    Bits(n.version) - n.prefixLen
  }

  /** Size of the address block a network covers: 2 to the number of host bits. */
  function BlockSize(n: Network): (s: nat)
    ensures s >= 1
  {
    Pow2(HostBits(n))
  }

  /** The value with its host bits cleared, i.e. ANDed with the netmask of a
      block of `size` addresses (`size` a power of two): the value rounded
      down to a multiple of the block size. */
  function Masked(value: nat, size: nat): (m: nat)
    requires size >= 1
    ensures m <= value < m + size
    ensures m % size == 0
  {
    var q: nat := value / size;
    DivMod(value, size);
    q * size
  }

  /** `address in network`: same version, and the address masked with the
      network's netmask is the network address. */
  predicate Contains(n: Network, a: Address): (c: bool)
    ensures c ==> n.version == a.version && n.network <= a.value < n.network + BlockSize(n)
  {
    n.version == a.version && Masked(a.value, BlockSize(n)) == n.network
  }

  // ----- Arithmetic helpers -----

  lemma DivMod(v: nat, p: nat)
    requires p >= 1
    ensures v == v / p * p + v % p
    ensures 0 <= v % p < p
    ensures v / p * p <= v
    ensures (v / p * p) % p == 0
  {
    var q := v / p;
    MulMod(q, p);
  }

  lemma MulMod(q: nat, p: nat)
    requires p >= 1
    ensures (q * p) % p == 0 && (q * p) / p == q
  {
    var r := q * p;
    assert r == q * p + 0;
    DivUnique(r, p, q, 0);
  }

  /** Euclidean division is determined by the quotient/remainder decomposition. */
  lemma DivUnique(v: nat, p: nat, q: nat, r: nat)
    requires p >= 1 && r < p && v == q * p + r
    ensures v / p == q && v % p == r
  {
    var q0 := v / p;
    if q0 != q {
      var lo, hi := if q0 < q then q0 else q, if q0 < q then q else q0;
      MulLe(lo + 1, hi, p);
    }
  }

  lemma MulLe(a: nat, b: nat, p: nat)
    requires a <= b
    ensures a * p <= b * p
  {
  }

  // ----- Properties of containment -----

  /** Containment is a range test: a network contains exactly the addresses
      of its version from the network address up to, not including, the
      network address plus the block size. */
  lemma {:induction false} ContainsIffInRange(n: Network, a: Address)
    ensures Contains(n, a) <==>
            n.version == a.version && n.network <= a.value < n.network + BlockSize(n)
  {
    var p := BlockSize(n);
    var q := a.value / p;
    var k := n.network / p;
    DivMod(a.value, p);
    DivMod(n.network, p);
    assert n.network == k * p;
    if n.network <= a.value < n.network + p {
      DivUnique(a.value, p, k, a.value - n.network);
      assert Masked(a.value, p) == n.network;
    }
    if Masked(a.value, p) == n.network {
      assert q * p == n.network;
    }
  }

  /** A zero-length prefix (0.0.0.0/0, ::/0) matches every address of its
      version: nothing filters such a block, so once cached it captures all
      later queries of that version that reach it in the scan. */
  lemma {:induction false} WholeSpaceContainsAll(n: Network, a: Address)
    requires n.prefixLen == 0
    ensures Contains(n, a) <==> n.version == a.version
  {
    ContainsIffInRange(n, a);
    var p := Pow2(Bits(n.version));
    DivMod(n.network, p);
    assert n.network == 0 by {
      if n.network != 0 {
        assert n.network / p >= 1;
        MulLe(1, n.network / p, p);
      }
    }
  }

  /** A full-length prefix (/32, /128) contains exactly its own address. */
  lemma {:induction false} HostRouteContainsOnlyItself(n: Network, a: Address)
    requires n.prefixLen == Bits(n.version)
    ensures Contains(n, a) <==> n.version == a.version && a.value == n.network
  {
  }
}
