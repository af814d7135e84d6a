/** Model of `FourByteNetwork` (src/network.rs): a network of the 32-bit address space, kept as
    its network bits and the mask derived from its prefix length. Addresses are bit-vectors so that
    `&`, `<<` and `>>` are the source's own operations. */
module Network {

  import opened CoreNet

  /** Bit `i` of `x`, counting from the least significant bit. */
  predicate Bit(x: bv32, i: bv8)
    requires i < 32
  {
    (x >> i) & 1 == 1
  }

  datatype FourByteNetwork = FourByteNetwork(network: bv32, mask: bv32)

  /** `FourByteNetwork::new`: the mask is `u32::MAX << (32 - prefix)`. The source evaluates it in
      constant context, where a prefix of 0 (a shift by 32) or above 32 (`32 - prefix` underflows)
      is a build error, so both are excluded here. The prefix is a `u8`, as in the source. */
  function New(network: bv32, prefix: bv8): (r: FourByteNetwork)
    requires 1 <= prefix <= 32
  {
    FourByteNetwork(network, 0xFFFF_FFFF << (32 - prefix))
  }

  /** The mask built by `new` has exactly its top `prefix` bits set. */
  lemma NewMaskBits(network: bv32, prefix: bv8, i: bv8)
    requires 1 <= prefix <= 32 && i < 32
    ensures Bit(New(network, prefix).mask, i) <==> 32 - prefix <= i
  {
  }

  /** `contains_v4`: masked equality. */
  predicate ContainsV4(n: FourByteNetwork, ip: Ipv4Addr)
  {
    ip & n.mask == n.network
  }

  /** `contains_v6`: the same masked equality on the top 32 bits of the IPv6 address. */
  predicate ContainsV6(n: FourByteNetwork, ip: Ipv6Addr)
  {
    Top32(ip) & n.mask == n.network
  }

  /** The host part of a prefix mask (`!mask`) is 2^(32 - prefix) - 1: a run of low one bits. */
  predicate IsHostPart(h: bv32)
  {
    h & (h + 1) == 0
  }

  lemma HostPartOfNew(network: bv32, prefix: bv8)
    ensures 1 <= prefix <= 32 ==> IsHostPart(!New(network, prefix).mask)
  {
  }

  lemma HostPartValue(network: bv32, prefix: bv8)
    ensures 1 <= prefix <= 32 ==> !New(network, prefix).mask == (1 << (32 - prefix)) - 1
  {
  }

  /** A well-formed network: its mask is a prefix mask and its network has no bit set below the
      prefix. Every network the source builds is of this kind (HostPartOfNew, V4TableWellFormed). */
  predicate Canonical(n: FourByteNetwork)
  {
    IsHostPart(!n.mask) && n.network & !n.mask == 0
  }

  // Each bit-vector step below is one small solver query, stated as an implication without
  // preconditions; ContainsV4Range puts them together.

  lemma MaskedAtLeastNetwork(network: bv32, mask: bv32, ip: bv32)
    ensures ip & mask == network ==> network <= ip
  {
  }

  lemma MaskedWithinHostPart(network: bv32, mask: bv32, ip: bv32)
    ensures ip & mask == network ==> ip - network <= !mask
  {
  }

  lemma InRangeIsMasked(network: bv32, mask: bv32, ip: bv32)
    ensures IsHostPart(!mask) && network & !mask == 0 && network <= ip && ip - network <= !mask ==> ip & mask == network
  {
  }

  /** For a canonical network the masked equality of `contains_v4` picks out exactly the block
      `network .. network + !mask`. */
  lemma ContainsV4Range(network: bv32, mask: bv32, ip: Ipv4Addr)
    requires Canonical(FourByteNetwork(network, mask))
    ensures ContainsV4(FourByteNetwork(network, mask), ip) <==> network <= ip && ip - network <= !mask
  {
    MaskedAtLeastNetwork(network, mask, ip);
    MaskedWithinHostPart(network, mask, ip);
    InRangeIsMasked(network, mask, ip);
  }

  /** `new` builds a canonical network from any network address without bits below the prefix;
      its block is then `network .. network + 2^(32 - prefix) - 1` (ContainsV4Range, HostPartValue). */
  lemma NewIsCanonical(network: bv32, prefix: bv8)
    requires 1 <= prefix <= 32
    requires network & !New(network, prefix).mask == 0
    ensures Canonical(New(network, prefix))
  {
    HostPartOfNew(network, prefix);
  }

  lemma NewBlockRangeInside(network: bv32, prefix: bv8, ip: Ipv4Addr)
    ensures 1 <= prefix <= 32 && ContainsV4(New(network, prefix), ip) ==>
              network <= ip && ip - network <= (1 << (32 - prefix)) - 1
  {
    if 1 <= prefix <= 32 {
      var n := New(network, prefix);
      HostPartValue(network, prefix);
      MaskedAtLeastNetwork(n.network, n.mask, ip);
      MaskedWithinHostPart(n.network, n.mask, ip);
    }
  }

  lemma NewBlockRangeOutside(network: bv32, prefix: bv8, ip: Ipv4Addr)
    ensures 1 <= prefix <= 32 && network & !New(network, prefix).mask == 0 &&
              network <= ip && ip - network <= (1 << (32 - prefix)) - 1 ==>
              ContainsV4(New(network, prefix), ip)
  {
    if 1 <= prefix <= 32 {
      var n := New(network, prefix);
      HostPartValue(network, prefix);
      HostPartOfNew(network, prefix);
      InRangeIsMasked(n.network, n.mask, ip);
    }
  }

  /** So a network built by `new` without bits below its prefix contains exactly the addresses
      `network ..= network + 2^(32 - prefix) - 1`. */
  lemma NewBlockRange(network: bv32, prefix: bv8, ip: Ipv4Addr)
    requires 1 <= prefix <= 32
    requires network & !New(network, prefix).mask == 0
    ensures ContainsV4(New(network, prefix), ip) <==> network <= ip && ip - network <= (1 << (32 - prefix)) - 1
  {
    NewBlockRangeInside(network, prefix, ip);
    NewBlockRangeOutside(network, prefix, ip);
  }

  /** With prefix 32 the mask is all ones, so only the network address itself is contained. */
  lemma ContainsV4FullPrefix(network: bv32, ip: Ipv4Addr)
    ensures ContainsV4(New(network, 32), ip) <==> ip == network
  {
  }

  /** A network with any bit set below its prefix contains no address at all. */
  lemma ContainsV4NoneWhenHostBitsSet(n: FourByteNetwork, ip: Ipv4Addr)
    requires n.network & !n.mask != 0
    ensures !ContainsV4(n, ip)
  {
  }

  lemma ContainsV6ThenTop(n: FourByteNetwork, ip: Ipv6Addr, other: Ipv6Addr)
    ensures Top32(ip) == Top32(other) && ContainsV6(n, ip) ==> ContainsV4(n, Top32(other))
  {
  }

  lemma TopThenContainsV6(n: FourByteNetwork, ip: Ipv6Addr, other: Ipv6Addr)
    ensures Top32(ip) == Top32(other) && ContainsV4(n, Top32(other)) ==> ContainsV6(n, ip)
  {
  }

  /** `contains_v6` is `contains_v4` on the top 32 bits, so two IPv6 addresses that agree on
      those bits are contained in the same networks, whatever their other 96 bits. */
  lemma ContainsV6OnlyTopBits(n: FourByteNetwork, ip: Ipv6Addr, other: Ipv6Addr)
    requires Top32(ip) == Top32(other)
    ensures ContainsV6(n, ip) <==> ContainsV4(n, Top32(other))
  {
    ContainsV6ThenTop(n, ip, other);
    TopThenContainsV6(n, ip, other);
  }

  /** Number of leading zero bits among bits `width - 1 .. 0` of `x`. */
  function LeadingZerosBelow(x: bv32, width: bv8): (r: bv8)
    requires width <= 32
    ensures r <= width
    decreases width
  {
    if width == 0 then 0
    else if Bit(x, width - 1) then 0
    else 1 + LeadingZerosBelow(x, width - 1)
  }

  /** `u32::leading_zeros`, narrowed to a `u8` as `prefix` does. */
  function LeadingZeros32(x: bv32): (r: bv8)
    ensures r <= 32
  {
    LeadingZerosBelow(x, 32)
  }

  /** `FourByteNetwork::prefix` as written: `32 - mask.leading_zeros()`. */
  function Prefix(n: FourByteNetwork): (r: bv8)
    ensures r <= 32
  {
    32 - LeadingZeros32(n.mask)
  }

  /** As written, `prefix` reports 32 for every network built by `new`: a prefix mask has its top
      bit set, so it has no leading zeros. */
  lemma PrefixOfNewIs32(network: bv32, prefix: bv8)
    requires 1 <= prefix <= 32
    ensures Prefix(New(network, prefix)) == 32
  {
    NewMaskBits(network, prefix, 31);
  }

  /** Index of the lowest set bit of `x` at or above bit `from` (32 when there is none): from 0 it
      is `u32::trailing_zeros`. */
  function TrailingZerosFrom(x: bv32, from: bv8): (r: bv8)
    requires from <= 32
    ensures from <= r <= 32
    decreases 32 - from
  {
    if from == 32 then 32
    else if Bit(x, from) then from
    else TrailingZerosFrom(x, from + 1)
  }

  /** The bits of a `new` mask below `32 - prefix` are clear and that bit is set, so the search
      from any lower bit stops exactly there. */
  lemma {:induction false} TrailingZerosOfNew(network: bv32, prefix: bv8, from: bv8)
    requires 1 <= prefix <= 32 && from <= 32 - prefix
    ensures TrailingZerosFrom(New(network, prefix).mask, from) == 32 - prefix
    decreases 32 - from
  {
    NewMaskBits(network, prefix, from);
    if from < 32 - prefix {
      TrailingZerosOfNew(network, prefix, from + 1);
    }
  }

  /** The prefix length a mask stands for: `32 - mask.trailing_zeros()`. */
  function PrefixLength(n: FourByteNetwork): (r: bv8)
    ensures r <= 32
  {
    32 - TrailingZerosFrom(n.mask, 0)
  }

  /** The corrected `prefix` gives back the prefix the network was built with. */
  lemma PrefixLengthOfNew(network: bv32, prefix: bv8)
    requires 1 <= prefix <= 32
    ensures PrefixLength(New(network, prefix)) == prefix
  {
    TrailingZerosOfNew(network, prefix, 0);
  }
}
