/** The classification entry points of src/lib.rs: the fixed IPv4 special-use table and the
    IPv4, IPv6, `IpAddr` and string front ends. The IPv6 table is generated at build time
    (AllocationCompiler); here it is a parameter `allocations`, so every statement about
    `IsBogonV6` holds for whatever table the build produced. */
module Bogon {

  import opened CoreNet
  import opened Network
  import opened Iter

  /** `V4_BOGON_NETWORKS`: the special-use IPv4 blocks, in the order the source lists them. */
  const V4_BOGON_NETWORKS: seq<FourByteNetwork> := [
    New(Ipv4(0, 0, 0, 0), 8),         // "This network"
    New(Ipv4(10, 0, 0, 0), 8),        // Private-Use
    New(Ipv4(100, 64, 0, 0), 10),     // Shared Address Space
    New(Ipv4(127, 0, 0, 0), 8),       // Loopback
    New(Ipv4(169, 254, 0, 0), 16),    // Link Local
    New(Ipv4(172, 16, 0, 0), 12),     // Private-Use
    New(Ipv4(192, 0, 0, 0), 24),      // IETF Protocol Assignments
    New(Ipv4(192, 0, 2, 0), 24),      // Documentation (TEST-NET-1)
    New(Ipv4(192, 168, 0, 0), 16),    // Private-Use
    New(Ipv4(198, 18, 0, 0), 15),     // Benchmarking
    New(Ipv4(198, 51, 100, 0), 24),   // TEST-NET-2
    New(Ipv4(203, 0, 113, 0), 24),    // TEST-NET-3
    New(Ipv4(224, 0, 0, 0), 4),       // Multicast
    New(Ipv4(240, 0, 0, 0), 4),       // Reserved
    New(Ipv4(255, 255, 255, 255), 32) // Limited Broadcast
  ]

  /** `is_bogon_v4`: some entry of the special-use table contains the address. */
  predicate IsBogonV4(ip: Ipv4Addr)
  {
    Any(V4_BOGON_NETWORKS, (n: FourByteNetwork) => ContainsV4(n, ip))
  }

  /** The gate of `is_bogon_v6`: the address lies in 2000::/3, the global unicast range
      (`segments()[0] & 0xe000 == 0x2000`). */
  predicate InGlobalUnicast(ip: Ipv6Addr)
  {
    Segment0(ip) & 0xe000 == 0x2000
  }

  /** `is_bogon_v6`: outside 2000::/3 an address is bogus; inside, it is bogus when no entry of the
      allocation table contains it. */
  predicate IsBogonV6(allocations: seq<FourByteNetwork>, ip: Ipv6Addr)
  {
    if !InGlobalUnicast(ip) then true
    else !Any(allocations, (n: FourByteNetwork) => ContainsV6(n, ip))
  }

  /** `is_bogon`: dispatch on the address family. */
  predicate IsBogon(allocations: seq<FourByteNetwork>, ip: IpAddr)
  {
    match ip
    case V4(v4) => IsBogonV4(v4)
    case V6(v6) => IsBogonV6(allocations, v6)
  }

  /** The error `core::net` parsing reports, with the kind of address it expected. */
  datatype AddrKind = IpKind | Ipv4Kind | Ipv6Kind | SocketKind | SocketV4Kind | SocketV6Kind
  datatype AddrParseError = AddrParseError(kind: AddrKind)

  datatype Result<T, E> = Ok(value: T) | Err(error: E)

  /** `is_bogon_str`: `parse().map(is_bogon)`. The textual parser is the standard library's; it is
      the parameter `parse`. */
  function IsBogonStr(allocations: seq<FourByteNetwork>, s: string,
                      parse: string -> Result<IpAddr, AddrParseError>): (r: Result<bool, AddrParseError>)
    ensures parse(s).Err? ==> r == Err(parse(s).error)
    ensures parse(s).Ok? ==> r == Ok(IsBogon(allocations, parse(s).value))
  {
    match parse(s)
    case Ok(ip) => Ok(IsBogon(allocations, ip))
    case Err(e) => Err(e)
  }

  /** Every entry of the special-use table is canonical: built with a prefix in 1..32 (`New` demands
      it), so its mask is a prefix mask, and with no network bit set below its prefix, as the table
      test checks by rebuilding each entry from its masked network address. */
  lemma V4EntryWellFormed(i: int)
    requires 0 <= i < |V4_BOGON_NETWORKS|
    ensures Canonical(V4_BOGON_NETWORKS[i])
  {
    var t := V4_BOGON_NETWORKS;
    if i == 0 { assert Canonical(t[0]); }
    else if i == 1 { assert Canonical(t[1]); }
    else if i == 2 { assert Canonical(t[2]); }
    else if i == 3 { assert Canonical(t[3]); }
    else if i == 4 { assert Canonical(t[4]); }
    else if i == 5 { assert Canonical(t[5]); }
    else if i == 6 { assert Canonical(t[6]); }
    else if i == 7 { assert Canonical(t[7]); }
    else if i == 8 { assert Canonical(t[8]); }
    else if i == 9 { assert Canonical(t[9]); }
    else if i == 10 { assert Canonical(t[10]); }
    else if i == 11 { assert Canonical(t[11]); }
    else if i == 12 { assert Canonical(t[12]); }
    else if i == 13 { assert Canonical(t[13]); }
    else { assert Canonical(t[14]); }
  }

  lemma V4TableWellFormed()
    ensures |V4_BOGON_NETWORKS| == 15
    ensures forall i :: 0 <= i < |V4_BOGON_NETWORKS| ==> Canonical(V4_BOGON_NETWORKS[i])
  {
    forall i | 0 <= i < |V4_BOGON_NETWORKS|
      ensures Canonical(V4_BOGON_NETWORKS[i])
    {
      V4EntryWellFormed(i);
    }
  }

  /** `is_bogon_v4` holds exactly when some table entry contains the address. */
  lemma IsBogonV4Iff(ip: Ipv4Addr)
    ensures IsBogonV4(ip) <==> exists i :: 0 <= i < |V4_BOGON_NETWORKS| && ContainsV4(V4_BOGON_NETWORKS[i], ip)
  {
  }

  /** Every address of every listed block, from its network up to the network plus the host part,
      is bogus. */
  lemma BlockMembersAreBogon(i: int, ip: Ipv4Addr)
    requires 0 <= i < |V4_BOGON_NETWORKS|
    requires V4_BOGON_NETWORKS[i].network <= ip
    requires ip - V4_BOGON_NETWORKS[i].network <= !V4_BOGON_NETWORKS[i].mask
    ensures IsBogonV4(ip)
  {
    V4EntryWellFormed(i);
    var n := V4_BOGON_NETWORKS[i];
    assert n == FourByteNetwork(n.network, n.mask);
    ContainsV4Range(n.network, n.mask, ip);
    EntryMemberIsBogon(i, ip);
  }

  lemma EntryMemberIsBogon(i: int, ip: Ipv4Addr)
    requires 0 <= i < |V4_BOGON_NETWORKS|
    requires ContainsV4(V4_BOGON_NETWORKS[i], ip)
    ensures IsBogonV4(ip)
  {
    IsBogonV4Iff(ip);
  }

  /** The doc examples of `is_bogon_v4`: 127.0.0.1 is bogus and 8.8.8.8 is not. */
  lemma LoopbackIsBogon()
    ensures IsBogonV4(Ipv4(127, 0, 0, 1))
  {
    assert ContainsV4(V4_BOGON_NETWORKS[3], Ipv4(127, 0, 0, 1));
    IsBogonV4Iff(Ipv4(127, 0, 0, 1));
  }

  /** No entry contains 8.8.8.8. */
  lemma PublicDnsOutsideEntry(i: int)
    requires 0 <= i < |V4_BOGON_NETWORKS|
    ensures !ContainsV4(V4_BOGON_NETWORKS[i], Ipv4(8, 8, 8, 8))
  {
    var t, ip := V4_BOGON_NETWORKS, Ipv4(8, 8, 8, 8);
    if i == 0 { assert !ContainsV4(t[0], ip); }
    else if i == 1 { assert !ContainsV4(t[1], ip); }
    else if i == 2 { assert !ContainsV4(t[2], ip); }
    else if i == 3 { assert !ContainsV4(t[3], ip); }
    else if i == 4 { assert !ContainsV4(t[4], ip); }
    else if i == 5 { assert !ContainsV4(t[5], ip); }
    else if i == 6 { assert !ContainsV4(t[6], ip); }
    else if i == 7 { assert !ContainsV4(t[7], ip); }
    else if i == 8 { assert !ContainsV4(t[8], ip); }
    else if i == 9 { assert !ContainsV4(t[9], ip); }
    else if i == 10 { assert !ContainsV4(t[10], ip); }
    else if i == 11 { assert !ContainsV4(t[11], ip); }
    else if i == 12 { assert !ContainsV4(t[12], ip); }
    else if i == 13 { assert !ContainsV4(t[13], ip); }
    else { assert !ContainsV4(t[14], ip); }
  }

  lemma PublicDnsIsNotBogon()
    ensures !IsBogonV4(Ipv4(8, 8, 8, 8))
  {
    forall i | 0 <= i < |V4_BOGON_NETWORKS|
      ensures !ContainsV4(V4_BOGON_NETWORKS[i], Ipv4(8, 8, 8, 8))
    {
      PublicDnsOutsideEntry(i);
    }
    IsBogonV4Iff(Ipv4(8, 8, 8, 8));
  }

  /** Outside 2000::/3 `is_bogon_v6` is true whatever the allocation table holds. */
  lemma OutsideGlobalUnicastIsBogon(allocations: seq<FourByteNetwork>, ip: Ipv6Addr)
    requires !InGlobalUnicast(ip)
    ensures IsBogonV6(allocations, ip)
  {
  }

  /** Inside 2000::/3 `is_bogon_v6` is true exactly when no allocation contains the top 32 bits of
      the address. */
  lemma InsideGlobalUnicast(allocations: seq<FourByteNetwork>, ip: Ipv6Addr)
    requires InGlobalUnicast(ip)
    ensures IsBogonV6(allocations, ip) <==>
              forall i :: 0 <= i < |allocations| ==> !ContainsV4(allocations[i], Top32(ip))
  {
    forall i | 0 <= i < |allocations|
      ensures ContainsV6(allocations[i], ip) <==> ContainsV4(allocations[i], Top32(ip))
    {
      ContainsV6OnlyTopBits(allocations[i], ip, ip);
    }
  }

  /** So the verdict on an IPv6 address depends only on its top 32 bits. */
  lemma IsBogonV6OnlyTopBits(allocations: seq<FourByteNetwork>, ip: Ipv6Addr, other: Ipv6Addr)
    requires Top32(ip) == Top32(other)
    ensures IsBogonV6(allocations, ip) <==> IsBogonV6(allocations, other)
  {
    if InGlobalUnicast(ip) {
      assert InGlobalUnicast(other);
      InsideGlobalUnicast(allocations, ip);
      InsideGlobalUnicast(allocations, other);
    } else {
      assert !InGlobalUnicast(other);
    }
  }

  /** The doc examples of `is_bogon_v6`: `::1` is bogus for every table, and
      `2606:4700:4700:1111::2` is not bogus once some allocation contains 2606:4700::/32's top bits. */
  lemma LoopbackV6IsBogon(allocations: seq<FourByteNetwork>)
    ensures IsBogonV6(allocations, Ipv6(0, 0, 0, 0, 0, 0, 0, 1))
  {
  }

  lemma CloudflareDnsIsNotBogon(allocations: seq<FourByteNetwork>)
    requires exists i :: 0 <= i < |allocations| && ContainsV4(allocations[i], 0x2606_4700)
    ensures !IsBogonV6(allocations, Ipv6(0x2606, 0x4700, 0x4700, 0x1111, 0, 0, 0, 2))
  {
    var ip := Ipv6(0x2606, 0x4700, 0x4700, 0x1111, 0, 0, 0, 2);
    assert InGlobalUnicast(ip);
    InsideGlobalUnicast(allocations, ip);
  }

  /** `is_bogon` never consults the IPv6 table for an IPv4 address, and agrees with the per-family
      functions. */
  lemma IsBogonDispatch(allocations: seq<FourByteNetwork>, other: seq<FourByteNetwork>, ip: IpAddr)
    ensures ip.V4? ==> (IsBogon(allocations, ip) <==> IsBogonV4(ip.v4)) &&
                       (IsBogon(allocations, ip) <==> IsBogon(other, ip))
    ensures ip.V6? ==> (IsBogon(allocations, ip) <==> IsBogonV6(allocations, ip.v6))
  {
  }
}
