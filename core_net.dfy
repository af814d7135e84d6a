/** The standard address types the engine takes as input (`core::net`), reduced to what the
    classification reads. An IPv4 address is its 32 bits in network order (`Ipv4Addr::to_bits`).
    An IPv6 address is its 128 bits (`Ipv6Addr::to_bits`) kept as the top 32 bits and the low 96
    bits, since every test the engine makes looks at the top 32 bits only. */
module CoreNet {

  type Ipv4Addr = bv32

  /** `to_bits() == hi ++ lo`: `hi` is `to_bits() >> 96`, `lo` the remaining bits. */
  datatype Ipv6Addr = Ipv6Addr(hi: bv32, lo: bv96)

  /** `IpAddr`: either family. */
  datatype IpAddr = V4(v4: Ipv4Addr) | V6(v6: Ipv6Addr)

  /** `Ipv4Addr::new(a, b, c, d).to_bits()`. */
  function Ipv4(a: bv8, b: bv8, c: bv8, d: bv8): (r: Ipv4Addr)
    ensures (r >> 24) as bv8 == a && ((r >> 16) & 0xFF) as bv8 == b
    ensures ((r >> 8) & 0xFF) as bv8 == c && (r & 0xFF) as bv8 == d
  {
    ((a as bv32) << 24) | ((b as bv32) << 16) | ((c as bv32) << 8) | (d as bv32)
  }

  /** `Ipv6Addr::new(a, b, c, d, e, f, g, h)`: the eight 16-bit segments, most significant first. */
  function Ipv6(a: bv16, b: bv16, c: bv16, d: bv16, e: bv16, f: bv16, g: bv16, h: bv16): (r: Ipv6Addr)
    ensures Segment0(r) == a
  {
    Ipv6Addr(((a as bv32) << 16) | (b as bv32),
             ((c as bv96) << 80) | ((d as bv96) << 64) | ((e as bv96) << 48) |
             ((f as bv96) << 32) | ((g as bv96) << 16) | (h as bv96))
  }

  /** `ip.segments()[0]`: the most significant 16 bits. */
  function Segment0(ip: Ipv6Addr): (r: bv16)
  {
    (ip.hi >> 16) as bv16
  }

  /** `(ip.to_bits() >> 96) as u32`. */
  function Top32(ip: Ipv6Addr): (r: bv32)
  {
    ip.hi
  }
}
