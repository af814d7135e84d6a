/** IPv6 CIDR blocks as the build script uses them: a 128-bit address with a prefix length,
    the block's first address (`network()`), last address (`broadcast()`) and membership
    (`contains`). Addresses are integers below 2^128 so that intervals can be reasoned about
    with ordinary arithmetic; masking off the low `128 - prefix` bits is rounding down to a
    multiple of 2^(128 - prefix). */
module Ipv6Block {

  function Pow2(k: nat): (r: nat)
    ensures r >= 1
  {
    if k == 0 then 1 else 2 * Pow2(k - 1)
  }

  /** 2^128: one past `u128::MAX`. */
  const ADDRESS_SPACE: nat := 0x1_0000_0000_0000_0000_0000_0000_0000_0000

  const U128_MAX: nat := ADDRESS_SPACE - 1

  type U128 = x: int | 0 <= x < ADDRESS_SPACE

  type PrefixLen = p: int | 0 <= p <= 128

  /** `Ipv6Network`: the address it was built from (not necessarily masked) and its prefix. */
  datatype Ipv6Net = Ipv6Net(addr: U128, prefix: PrefixLen)

  /** Number of addresses in a block of the given prefix. */
  function BlockSize(prefix: PrefixLen): (r: nat)
    ensures r >= 1
  {
    Pow2(128 - prefix)
  }

  // Powers of two.

  lemma {:induction false} Pow2Add(a: nat, b: nat)
    ensures Pow2(a + b) == Pow2(a) * Pow2(b)
    decreases a
  {
    if a > 0 {
      Pow2Add(a - 1, b);
    }
  }

  // The powers the model names as constants, computed from smaller ones.

  lemma Pow2Of32()
    ensures Pow2(32) == 0x1_0000_0000
  {
    assert Pow2(8) == 0x100;
    Pow2Add(8, 8);
    Pow2Add(16, 16);
  }

  lemma Pow2Of96()
    ensures Pow2(96) == 0x1_0000_0000_0000_0000_0000_0000
  {
    Pow2Of32();
    Pow2Add(32, 32);
    Pow2Add(64, 32);
  }

  lemma Pow2Of128()
    ensures Pow2(128) == ADDRESS_SPACE
  {
    Pow2Of32();
    Pow2Add(32, 32);
    Pow2Add(64, 64);
  }

  lemma Pow2Monotone(a: nat, b: nat)
    requires a <= b
    ensures Pow2(a) <= Pow2(b)
  {
    Pow2Add(a, b - a);
  }

  lemma Pow2Divides(a: nat, b: nat)
    requires a <= b
    ensures Pow2(b) % Pow2(a) == 0
    ensures Pow2(b) / Pow2(a) == Pow2(b - a)
  {
    var k := b - a;
    Pow2Add(k, a);
    assert Pow2(b) == Pow2(k) * Pow2(a) + 0;
    DivUnique(Pow2(b), Pow2(a), Pow2(k), 0);
  }

  // Integer multiplication and division facts, each proved once with the products it needs
  // named, so that no proof leaves the solver to search for nonlinear steps on its own.

  lemma MulAtLeast(k: int, d: int)
    ensures k >= 1 && d >= 0 ==> k * d >= d
  {
  }

  lemma MulMonotone(a: int, b: int, d: int)
    ensures a <= b && d >= 0 ==> a * d <= b * d
  {
  }

  lemma MulSub(a: int, b: int, d: int)
    ensures (a - b) * d == a * d - b * d
  {
  }

  lemma MulAdd(a: int, b: int, d: int)
    ensures (a + b) * d == a * d + b * d
  {
  }

  lemma MulAssoc(a: int, b: int, c: int)
    ensures (a * b) * c == a * (b * c)
  {
  }

  lemma DivOfProduct(q: nat, d: nat)
    requires d >= 1
    ensures (q * d) % d == 0 && (q * d) / d == q
  {
    DivUnique(q * d, d, q, 0);
  }

  /** Quotient and remainder are unique. */
  lemma DivUnique(x: int, d: int, q: int, r: int)
    requires d >= 1 && 0 <= r < d && x == q * d + r
    ensures x / d == q && x % d == r
  {
    var q0, r0 := x / d, x % d;
    if q0 > q {
      MulSub(q0, q, d);
      MulAtLeast(q0 - q, d);
    } else if q0 < q {
      MulSub(q, q0, d);
      MulAtLeast(q - q0, d);
    }
  }

  lemma DivExact(x: int, d: int)
    requires d >= 1 && x % d == 0
    ensures x == (x / d) * d
  {
  }

  /** Dividing by `a` and then by `b` is dividing by `a * b`. */
  lemma DivDiv(x: nat, a: nat, b: nat)
    requires a >= 1 && b >= 1
    ensures x / (a * b) == (x / a) / b
  {
    var q, r := x / (a * b), x % (a * b);
    var r1, r0 := r / a, r % a;
    MulAssoc(q, b, a);
    MulAdd(q * b, r1, a);
    DivUnique(x, a, q * b + r1, r0);
    MulMonotone(b, r1, a);
    DivUnique(x / a, b, q, r1);
  }

  /** Rounding down to a multiple of `d`. */
  lemma RoundDown(x: int, d: int)
    requires d >= 1
    ensures (x - x % d) % d == 0
    ensures x - x % d <= x < x - x % d + d
    ensures x >= 0 ==> x - x % d >= 0
  {
    DivUnique(x - x % d, d, x / d, 0);
  }

  /** Two numbers in the same run of `d` consecutive multiples have the same quotient. */
  lemma SameQuotient(x: int, y: int, d: int)
    requires d >= 1
    requires x - x % d <= y < x - x % d + d
    ensures y / d == x / d
  {
    DivUnique(y, d, x / d, y - (x - x % d));
  }

  /** A multiple of `d` below a multiple `m` of `d` is at least `d` below it. */
  lemma MultipleBelowMultiple(a: int, m: int, d: int)
    requires d >= 1 && a % d == 0 && m % d == 0
    ensures a < m ==> a + d <= m
  {
    var qa, qm := a / d, m / d;
    MulMonotone(qm, qa, d);
    MulSub(qm, qa, d);
    MulAtLeast(qm - qa, d);
  }

  /** A multiple of `a` is a multiple of every divisor `b` of `a`. */
  lemma MultipleOfDivisor(q: int, a: int, b: int)
    requires a >= 1 && b >= 1 && a % b == 0
    ensures (q * a) % b == 0
  {
    var k := a / b;
    MulAssoc(q, k, b);
    DivUnique(q * a, b, q * k, 0);
  }

  /** `network()`: the address with its low `128 - prefix` bits cleared. */
  function NetworkAddr(n: Ipv6Net): (r: U128)
    ensures r <= n.addr
    ensures r % BlockSize(n.prefix) == 0
    ensures n.addr - r < BlockSize(n.prefix)
  {
    var d := BlockSize(n.prefix);
    RoundDown(n.addr, d);
    n.addr - n.addr % d
  }

  /** The whole block lies below 2^128: its size divides 2^128. */
  lemma BlockSizeDividesSpace(prefix: PrefixLen)
    ensures ADDRESS_SPACE % BlockSize(prefix) == 0
  {
    Pow2Of128();
    Pow2Divides(128 - prefix, 128);
  }

  lemma BlockFits(n: Ipv6Net)
    ensures NetworkAddr(n) + BlockSize(n.prefix) <= ADDRESS_SPACE
  {
    BlockSizeDividesSpace(n.prefix);
    MultipleBelowMultiple(NetworkAddr(n), ADDRESS_SPACE, BlockSize(n.prefix));
  }

  /** `broadcast()`: the address with its low `128 - prefix` bits set. */
  function Broadcast(n: Ipv6Net): (r: U128)
    ensures NetworkAddr(n) <= n.addr <= r
    ensures r - NetworkAddr(n) == BlockSize(n.prefix) - 1
  {
    BlockFits(n);
    NetworkAddr(n) + BlockSize(n.prefix) - 1
  }

  /** `contains`: the address agrees with the block's address on the top `prefix` bits. */
  predicate Contains(n: Ipv6Net, a: int)
  {
    0 <= a < ADDRESS_SPACE && a / BlockSize(n.prefix) == n.addr / BlockSize(n.prefix)
  }

  /** A block holds exactly the addresses from its network to its broadcast address. */
  lemma ContainsIffInRange(n: Ipv6Net, a: int)
    ensures Contains(n, a) <==> NetworkAddr(n) <= a <= Broadcast(n)
  {
    var d := BlockSize(n.prefix);
    if NetworkAddr(n) <= a <= Broadcast(n) {
      SameQuotient(n.addr, a, d);
    }
    if Contains(n, a) {
      DivUnique(n.addr, d, a / d, n.addr % d);
    }
  }

  /** Blocks with a longer prefix sit inside the shorter-prefix block that holds their network:
      two blocks either nest or do not meet. */
  lemma Nested(outer: Ipv6Net, inner: Ipv6Net, a: int)
    requires outer.prefix <= inner.prefix
    requires Contains(outer, NetworkAddr(inner))
    requires Contains(inner, a)
    ensures Contains(outer, a)
  {
    var so, si := BlockSize(outer.prefix), BlockSize(inner.prefix);
    var no, ni := NetworkAddr(outer), NetworkAddr(inner);
    ContainsIffInRange(outer, ni);
    ContainsIffInRange(inner, a);
    assert no <= ni <= a < ni + si && ni < no + so;
    Pow2Divides(128 - inner.prefix, 128 - outer.prefix);
    assert so % si == 0;
    var q := no / so;
    DivExact(no, so);
    MulAdd(q, 1, so);
    MultipleOfDivisor(q + 1, so, si);
    MultipleBelowMultiple(ni, no + so, si);
    ContainsIffInRange(outer, a);
  }

  /** Every block contains its own network address. */
  lemma ContainsOwnNetwork(n: Ipv6Net)
    ensures Contains(n, NetworkAddr(n))
  {
    ContainsIffInRange(n, NetworkAddr(n));
  }

  /** A block whose network lies in a block of equal or longer prefix starts where that block
      starts. */
  lemma SameNetwork(outer: Ipv6Net, inner: Ipv6Net)
    requires outer.prefix <= inner.prefix
    requires Contains(inner, NetworkAddr(outer))
    ensures NetworkAddr(outer) == NetworkAddr(inner)
  {
    var so, si := BlockSize(outer.prefix), BlockSize(inner.prefix);
    var no, ni := NetworkAddr(outer), NetworkAddr(inner);
    ContainsIffInRange(inner, no);
    Pow2Divides(128 - inner.prefix, 128 - outer.prefix);
    DivExact(no, so);
    MultipleOfDivisor(no / so, so, si);
    MultipleBelowMultiple(ni, no, si);
  }

  /** So of two blocks, the one with the shorter prefix holds the other's network whenever the
      other holds its network: blocks never partly overlap. */
  lemma Laminar(outer: Ipv6Net, inner: Ipv6Net)
    ensures outer.prefix <= inner.prefix && Contains(inner, NetworkAddr(outer)) ==>
              Contains(outer, NetworkAddr(inner))
  {
    if outer.prefix <= inner.prefix && Contains(inner, NetworkAddr(outer)) {
      SameNetwork(outer, inner);
      ContainsOwnNetwork(outer);
    }
  }

  /** Some block of the list contains `a`. */
  predicate Covered(nets: seq<Ipv6Net>, a: int)
  {
    exists n :: n in nets && Contains(n, a)
  }

  lemma CoveredAppend(x: seq<Ipv6Net>, y: seq<Ipv6Net>, a: int)
    ensures Covered(x + y, a) <==> Covered(x, a) || Covered(y, a)
  {
    if Covered(x + y, a) {
      var n :| n in x + y && Contains(n, a);
      assert n in x || n in y;
    }
    if Covered(x, a) {
      var n :| n in x && Contains(n, a);
      assert n in x + y;
    }
    if Covered(y, a) {
      var n :| n in y && Contains(n, a);
      assert n in x + y;
    }
  }

  lemma CoveredSingleton(n: Ipv6Net, a: int)
    ensures Covered([n], a) <==> Contains(n, a)
  {
    assert n in [n];
  }

  /** Coverage depends only on which blocks are listed, not on their order. */
  lemma CoveredPermutation(x: seq<Ipv6Net>, y: seq<Ipv6Net>, a: int)
    requires multiset(x) == multiset(y)
    ensures Covered(x, a) <==> Covered(y, a)
  {
    if Covered(x, a) {
      var n :| n in x && Contains(n, a);
      assert n in multiset(y);
    }
    if Covered(y, a) {
      var n :| n in y && Contains(n, a);
      assert n in multiset(x);
    }
  }

  // The bit counts `u128` offers, on integers.

  /** Number of significant bits of `x`: one more than the position of its highest set bit. */
  function BitLength(x: nat): (r: nat)
    ensures x < Pow2(r)
    ensures x >= 1 ==> r >= 1 && Pow2(r - 1) <= x
    ensures x == 0 ==> r == 0
  {
    if x == 0 then 0 else 1 + BitLength(x / 2)
  }

  lemma {:induction false} BitLengthAtMost(x: nat, k: nat)
    requires x < Pow2(k)
    ensures BitLength(x) <= k
    decreases k
  {
    if x > 0 {
      BitLengthAtMost(x / 2, k - 1);
    }
  }

  /** A run of `k` one bits has bit length `k`. */
  lemma {:induction false} BitLengthOfOnes(k: nat)
    ensures BitLength(Pow2(k) - 1) == k
  {
    if k > 0 {
      BitLengthOfOnes(k - 1);
      assert (Pow2(k) - 1) / 2 == Pow2(k - 1) - 1;
    }
  }

  /** `u128::leading_zeros`. As a prefix length it gives the smallest block size above `x`. */
  function LeadingZeros(x: U128): (r: PrefixLen)
    ensures x < BlockSize(r)
    ensures x >= 1 ==> BlockSize(r) <= 2 * x
    ensures r == 128 <==> x == 0
  {
    Pow2Of128();
    BitLengthAtMost(x, 128);
    128 - BitLength(x)
  }

  lemma DoubleMultiple(y: nat, p: nat)
    requires p >= 1 && y % p == 0
    ensures (2 * y) % (2 * p) == 0
  {
    DivExact(y, p);
    MulAssoc(y / p, 2, p);
    DivOfProduct(y / p, 2 * p);
  }

  /** The number of low zero bits of `x`, counting at most `limit` of them. */
  function TrailingZerosUpTo(x: nat, limit: nat): (r: nat)
    ensures r <= limit
    ensures x % Pow2(r) == 0
    decreases limit
  {
    if limit == 0 || x % 2 == 1 then 0
    else
      var below := TrailingZerosUpTo(x / 2, limit - 1);
      DoubleMultiple(x / 2, Pow2(below));
      1 + below
  }

  /** `u128::trailing_zeros` (128 for zero): `x` is a multiple of 2 to that power. */
  function TrailingZeros(x: U128): (r: nat)
    ensures r <= 128
    ensures x % Pow2(r) == 0
  {
    TrailingZerosUpTo(x, 128)
  }
}
