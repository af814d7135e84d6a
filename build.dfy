/** Model of the build script (build.rs) that compiles IANA's IPv6 unicast assignment table into the
    list of 32-bit networks the runtime consults: keep the rows allocated to a regional internet
    registry, merge neighbouring prefixes into larger blocks, drop blocks inside
    other blocks, and keep the top 32 bits of each block's network with its prefix. */
module AllocationCompiler {

  import opened Ipv6Block
  import opened Sorting
  import opened Iter

  datatype Option<T> = None | Some(value: T)

  /** 2^96: the weight of the lowest of the top 32 bits. */
  const TOP_UNIT: nat := 0x1_0000_0000_0000_0000_0000_0000

  /** 2^127: the global unicast range 2000::/3, and so every registry allocation, lies below it. */
  const HALF_SPACE: nat := 0x8000_0000_0000_0000_0000_0000_0000_0000

  // ---------------------------------------------------------------------------------------------
  // Selecting the reachable allocations.

  /** A row of the assignment table. The date, WHOIS, RDAP and note columns are read and ignored. */
  datatype Ipv6Allocation = Ipv6Allocation(prefix: Ipv6Net, designation: string, status: string)

  /** The five regional internet registries. */
  const RIRS: seq<string> := ["AFRINIC", "APNIC", "ARIN", "LACNIC", "RIPE NCC"]

  /** A row counts as reachable when it is allocated to one of the registries. */
  predicate Reachable(a: Ipv6Allocation)
  {
    a.status == "ALLOCATED" && a.designation in RIRS
  }

  /** The filter of `main`: the prefixes of the reachable rows, in table order. */
  function ReachablePrefixes(allocations: seq<Ipv6Allocation>): (r: seq<Ipv6Net>)
    ensures |r| <= |allocations|
  {
    if |allocations| == 0 then []
    else (if Reachable(allocations[0]) then [allocations[0].prefix] else []) + ReachablePrefixes(allocations[1..])
  }

  /** A single row is kept, as its prefix, exactly when it is reachable. */
  lemma ReachablePrefixesOfRow(a: Ipv6Allocation)
    ensures ReachablePrefixes([a]) == if Reachable(a) then [a.prefix] else []
  {
    assert [a][1..] == [];
  }

  /** The filter works row by row and keeps the table's order: filtering a concatenation is
      concatenating the filtered parts. */
  lemma {:induction false} ReachablePrefixesAppend(x: seq<Ipv6Allocation>, y: seq<Ipv6Allocation>)
    ensures ReachablePrefixes(x + y) == ReachablePrefixes(x) + ReachablePrefixes(y)
  {
    if |x| > 0 {
      assert (x + y)[1..] == x[1..] + y;
      ReachablePrefixesAppend(x[1..], y);
    } else {
      assert x + y == y;
    }
  }

  /** A prefix is selected exactly when some reachable row carries it. */
  lemma {:induction false} ReachablePrefixesMembers(allocations: seq<Ipv6Allocation>, n: Ipv6Net)
    ensures n in ReachablePrefixes(allocations) <==>
              exists i :: 0 <= i < |allocations| && Reachable(allocations[i]) && allocations[i].prefix == n
  {
    if |allocations| > 0 {
      ReachablePrefixesMembers(allocations[1..], n);
      if n in ReachablePrefixes(allocations[1..]) {
        var i :| 0 <= i < |allocations[1..]| && Reachable(allocations[1..][i]) && allocations[1..][i].prefix == n;
        assert allocations[i + 1] == allocations[1..][i];
      }
      if exists i :: 0 <= i < |allocations| && Reachable(allocations[i]) && allocations[i].prefix == n {
        var i :| 0 <= i < |allocations| && Reachable(allocations[i]) && allocations[i].prefix == n;
        if i > 0 {
          assert allocations[1..][i - 1] == allocations[i];
        }
      }
    }
  }

  // ---------------------------------------------------------------------------------------------
  // Address intervals.

  /** A `(start, end)` pair of `merge_ranges`: the addresses `start ..= end`. */
  datatype Interval = Interval(start: U128, end: U128)

  predicate InInterval(r: Interval, a: int)
  {
    r.start <= a <= r.end
  }

  predicate InSome(rs: seq<Interval>, a: int)
  {
    exists i :: 0 <= i < |rs| && InInterval(rs[i], a)
  }

  lemma InSomeAppend(rs: seq<Interval>, r: Interval, a: int)
    ensures InSome(rs + [r], a) <==> InSome(rs, a) || InInterval(r, a)
  {
    if InSome(rs + [r], a) {
      var i :| 0 <= i < |rs + [r]| && InInterval((rs + [r])[i], a);
      if i < |rs| {
        assert (rs + [r])[i] == rs[i];
      }
    }
    if InSome(rs, a) {
      var i :| 0 <= i < |rs| && InInterval(rs[i], a);
      assert (rs + [r])[i] == rs[i];
    }
    assert (rs + [r])[|rs|] == r;
  }

  /** Non-empty intervals in increasing order with at least one address between neighbours: what
      the merging loop produces. */
  predicate Separated(rs: seq<Interval>)
  {
    (forall i :: 0 <= i < |rs| ==> rs[i].start <= rs[i].end) &&
    (forall i :: 0 <= i < |rs| - 1 ==> rs[i].end + 1 < rs[i + 1].start)
  }

  /** The merging loop of `merge_ranges`: over intervals sorted by start, extend the last merged
      interval while the next one starts no later than one past its end, otherwise start a new one.
      `prev_end + 1` is computed for every interval but the first, so every merged end the loop
      reaches before the last interval must stay below `u128::MAX`. */
  method MergeIntervals(ranges: seq<Interval>) returns (merged: seq<Interval>)
    requires |ranges| > 0
    requires forall i :: 0 <= i < |ranges| ==> ranges[i].start <= ranges[i].end
    requires forall i :: 0 <= i < |ranges| - 1 ==> ranges[i].start <= ranges[i + 1].start
    requires forall i :: 0 <= i < |ranges| - 1 ==> ranges[i].end < U128_MAX
    ensures |merged| > 0
    ensures Separated(merged)
    ensures forall a :: InSome(merged, a) <==> InSome(ranges, a)
  {
    merged := [ranges[0]];
    assert ranges[..1] == [ranges[0]];
    for i := 1 to |ranges|
      invariant |merged| > 0
      invariant Separated(merged)
      invariant merged[|merged| - 1].start <= ranges[i - 1].start
      invariant i < |ranges| ==> merged[|merged| - 1].end < U128_MAX
      invariant forall a :: InSome(merged, a) <==> InSome(ranges[..i], a)
    {
      var start, end := ranges[i].start, ranges[i].end;
      var last := merged[|merged| - 1];
      var rest := merged[..|merged| - 1];
      assert merged == rest + [last];
      var next: U128 := last.end + 1;
      if start <= next {
        var extended := Interval(last.start, if end > last.end then end else last.end);
        forall a
          ensures InSome(rest + [extended], a) <==> InSome(ranges[..i + 1], a)
        {
          InSomeAppend(rest, extended, a);
          InSomeAppend(rest, last, a);
          InSomeAppend(ranges[..i], ranges[i], a);
          assert ranges[..i + 1] == ranges[..i] + [ranges[i]];
        }
        merged := rest + [extended];
      } else {
        forall a
          ensures InSome(merged + [ranges[i]], a) <==> InSome(ranges[..i + 1], a)
        {
          InSomeAppend(merged, ranges[i], a);
          InSomeAppend(ranges[..i], ranges[i], a);
          assert ranges[..i + 1] == ranges[..i] + [ranges[i]];
        }
        merged := merged + [ranges[i]];
      }
    }
    assert ranges[..|ranges|] == ranges;
  }

  // ---------------------------------------------------------------------------------------------
  // `range_to_networks` as written.

  /** The block `range_to_networks` builds at `start`: its prefix is the number of leading zeros of
      `end - start`, so the block is the smallest power of two larger than `end - start`, not the
      largest that fits in the range, and it is laid down on the aligned boundary at or below `start`,
      not necessarily at `start`. Either can make it reach outside the range. */
  function GreedyBlock(start: U128, end: U128): (b: Ipv6Net)
    requires start <= end
    ensures b.addr == start && Contains(b, start)
    ensures b.prefix == 128 <==> start == end
    ensures end - start < BlockSize(b.prefix)
  {
    var b := Ipv6Net(start, LeadingZeros(end - start));
    ContainsIffInRange(b, start);
    b
  }

  /** The block's last address stays within `2 * end - start`, so the step `broadcast + 1` cannot
      overflow while that bound is below `u128::MAX`. */
  lemma GreedyBlockBound(start: U128, end: U128)
    requires start <= end
    ensures Broadcast(GreedyBlock(start, end)) <= 2 * end - start
  {
  }

  /** Blocks placed one after the other from `start`, each built by GreedyBlock at the address
      after the previous one's last address. */
  predicate GreedyPrefix(nets: seq<Ipv6Net>, start: U128, end: U128)
  {
    (nets != [] ==> nets[0].addr == start) &&
    (forall k :: 0 <= k < |nets| ==> nets[k].addr <= end && nets[k] == GreedyBlock(nets[k].addr, end)) &&
    (forall k :: 0 <= k < |nets| - 1 ==> nets[k + 1].addr == Broadcast(nets[k]) + 1)
  }

  /** The list `range_to_networks` returns: such blocks, until `end` is passed. */
  predicate GreedyChain(nets: seq<Ipv6Net>, start: U128, end: U128)
  {
    GreedyPrefix(nets, start, end) &&
    (start > end ==> nets == []) &&
    (start <= end ==> |nets| > 0 && end <= Broadcast(nets[|nets| - 1]))
  }

  lemma GreedyPrefixExtend(nets: seq<Ipv6Net>, start: U128, end: U128, s: U128)
    requires GreedyPrefix(nets, start, end) && s <= end
    requires nets == [] ==> s == start
    requires nets != [] ==> s == Broadcast(nets[|nets| - 1]) + 1
    ensures GreedyPrefix(nets + [GreedyBlock(s, end)], start, end)
  {
    var next := nets + [GreedyBlock(s, end)];
    forall k | 0 <= k < |next| - 1
      ensures next[k + 1].addr == Broadcast(next[k]) + 1
    {
      assert next[k] == nets[k];
    }
  }

  /** `range_to_networks` as written. `None` stands for the overflow panic of `broadcast + 1` when a
      block ends at `u128::MAX`; it cannot happen while `2 * end - start` stays below `u128::MAX`.
      The blocks cover every address of the range (and, as GreedyChainOneToTwo shows, possibly
      more). */
  method RangeToNetworks(start: U128, end: U128) returns (r: Option<seq<Ipv6Net>>)
    ensures start <= end && 2 * end - start < U128_MAX ==> r.Some?
    ensures r.Some? ==> GreedyChain(r.value, start, end)
    ensures r.Some? ==> forall a :: start <= a <= end ==> Covered(r.value, a)
    ensures r.Some? ==> forall n :: n in r.value ==> start <= n.addr <= end
  {
    var nets: seq<Ipv6Net> := [];
    var s := start;
    while s <= end
      invariant start <= s
      invariant nets == [] ==> s == start
      invariant nets != [] ==> s == Broadcast(nets[|nets| - 1]) + 1
      invariant GreedyPrefix(nets, start, end)
      invariant forall n :: n in nets ==> start <= n.addr < s
      invariant forall a :: start <= a < s ==> Covered(nets, a)
      decreases end - s
    {
      var net := GreedyBlock(s, end);
      GreedyBlockBound(s, end);
      GreedyPrefixExtend(nets, start, end, s);
      forall a | start <= a <= Broadcast(net)
        ensures Covered(nets + [net], a)
      {
        CoveredAppend(nets, [net], a);
        if s <= a {
          ContainsIffInRange(net, a);
          assert net in [net];
        }
      }
      nets := nets + [net];
      if Broadcast(net) == U128_MAX {
        return None;
      }
      s := Broadcast(net) + 1;
    }
    r := Some(nets);
  }

  /** The same happens on two registry rows. Merging the adjacent registry blocks 2001:200::/23 and
      2001:400::/23 gives the range 2001:200:: ..= 2001:5ff:ffff:..., which holds 2^106 addresses;
      the first block is then a /22, laid down at 2001::, and so contains 2001::, the first
      address of the IETF protocol assignments block 2001::/23 (Teredo among them). */
  lemma GreedyChainCoversIetfBlock(nets: seq<Ipv6Net>)
    requires GreedyChain(nets, 0x2001_0200 * TOP_UNIT, 0x2001_0600 * TOP_UNIT - 1)
    ensures nets[0] == Ipv6Net(0x2001_0200 * TOP_UNIT, 22)
    ensures Contains(nets[0], 0x2001_0000 * TOP_UNIT)
  {
    var start, end := 0x2001_0200 * TOP_UNIT, 0x2001_0600 * TOP_UNIT - 1;
    assert nets[0] == GreedyBlock(start, end);
    Pow2Add(10, 96);
    Pow2Of96();
    assert Pow2(10) == 0x400;
    assert end - start == Pow2(106) - 1;
    BitLengthOfOnes(106);
    assert BlockSize(22) == Pow2(106);
    DivUnique(start, Pow2(106), 0x80040, 0x200 * TOP_UNIT);
    DivUnique(0x2001_0000 * TOP_UNIT, Pow2(106), 0x80040, 0);
  }

  /** The start address strictly increases from one block of the list to the next. */
  lemma GreedyChainIncreasing(nets: seq<Ipv6Net>, start: U128, end: U128)
    requires GreedyChain(nets, start, end)
    ensures forall k :: 0 <= k < |nets| - 1 ==> nets[k].addr < nets[k + 1].addr
  {
  }

  /** The range 1..=2 shows the misplaced block: `end - start` is 1, so the first block has prefix
      127 and is the aligned pair 0..=1, which holds the address 0 below the range. */
  lemma GreedyChainOneToTwo(nets: seq<Ipv6Net>)
    requires GreedyChain(nets, 1, 2)
    ensures nets[0] == Ipv6Net(1, 127)
    ensures Covered(nets, 0)
  {
    assert nets[0] == GreedyBlock(1, 2);
    assert BitLength(1) == 1 by {
      assert BitLength(0) == 0;
    }
    assert Pow2(1) == 2;
    assert Contains(nets[0], 0);
  }

  /** The range 0..=2 shows the oversized block: `start` is aligned, but `end - start` is 2, so the
      first block has prefix 126 and is 0..=3, which holds the address 3 above the range. */
  lemma GreedyChainZeroToTwo(nets: seq<Ipv6Net>)
    requires GreedyChain(nets, 0, 2)
    ensures nets[0] == Ipv6Net(0, 126)
    ensures Covered(nets, 3)
  {
    assert nets[0] == GreedyBlock(0, 2);
    assert BitLength(2) == 2 by {
      assert BitLength(1) == 1 by {
        assert BitLength(0) == 0;
      }
    }
    assert Pow2(2) == 4;
    assert Contains(nets[0], 3);
  }

  // ---------------------------------------------------------------------------------------------
  // `range_to_networks` corrected: blocks laid down at `start` itself.

  /** The exponent of the block the corrected decomposition places at `start`: the smaller of the
      number of trailing zeros of `start` (so that the block is aligned there) and the exponent of
      the largest power of two not above the number of addresses left. */
  function AlignedExponent(start: U128, end: U128): (k: nat)
    requires start <= end
    ensures k <= 128
    ensures start % Pow2(k) == 0
    ensures 1 <= Pow2(k) <= end - start + 1
  {
    var tz := TrailingZeros(start);
    var fit := BitLength(end - start + 1) - 1;
    var k := if tz < fit then tz else fit;
    Pow2Monotone(k, fit);
    Pow2Divides(k, tz);
    DivExact(start, Pow2(tz));
    MultipleOfDivisor(start / Pow2(tz), Pow2(tz), Pow2(k));
    k
  }

  /** The block at `start`: it begins exactly at `start` and ends within the range. */
  function AlignedBlock(start: U128, end: U128): (b: Ipv6Net)
    requires start <= end
    ensures b.addr == start && NetworkAddr(b) == start
    ensures start <= Broadcast(b) <= end
  {
    var k := AlignedExponent(start, end);
    var b := Ipv6Net(start, 128 - k);
    assert BlockSize(b.prefix) == Pow2(k);
    assert NetworkAddr(b) == start;
    b
  }

  /** `range_to_networks` corrected: the blocks cover exactly the addresses `start ..= end`, and
      each block's address is its network address. An `end` of `u128::MAX` is excluded because the
      step past the last block would overflow, as at build.rs:181. */
  method RangeToNetworksAligned(start: U128, end: U128) returns (nets: seq<Ipv6Net>)
    requires end < U128_MAX
    ensures forall a :: Covered(nets, a) <==> start <= a <= end
    ensures forall k :: 0 <= k < |nets| ==> nets[k].addr == NetworkAddr(nets[k])
  {
    nets := [];
    var s := start;
    while s <= end
      invariant start <= s && (start <= end ==> s <= end + 1) && (start > end ==> s == start)
      invariant forall k :: 0 <= k < |nets| ==> nets[k].addr == NetworkAddr(nets[k])
      invariant forall a :: Covered(nets, a) <==> start <= a < s
      decreases end - s
    {
      var net := AlignedBlock(s, end);
      forall a
        ensures Covered(nets + [net], a) <==> start <= a <= Broadcast(net)
      {
        CoveredAppend(nets, [net], a);
        CoveredSingleton(net, a);
        ContainsIffInRange(net, a);
      }
      nets := nets + [net];
      s := Broadcast(net) + 1;
    }
  }

  /** The `flat_map(range_to_networks)` of `merge_ranges`, with the corrected decomposition: the
      blocks cover exactly the merged intervals. */
  method Decompose(merged: seq<Interval>) returns (all: seq<Ipv6Net>)
    requires forall i :: 0 <= i < |merged| ==> merged[i].end < U128_MAX
    ensures forall a :: Covered(all, a) <==> InSome(merged, a)
    ensures forall k :: 0 <= k < |all| ==> all[k].addr == NetworkAddr(all[k])
  {
    all := [];
    for i := 0 to |merged|
      invariant forall a :: Covered(all, a) <==> InSome(merged[..i], a)
      invariant forall k :: 0 <= k < |all| ==> all[k].addr == NetworkAddr(all[k])
    {
      var nets := RangeToNetworksAligned(merged[i].start, merged[i].end);
      forall a
        ensures Covered(all + nets, a) <==> InSome(merged[..i + 1], a)
      {
        CoveredAppend(all, nets, a);
        InSomeAppend(merged[..i], merged[i], a);
        assert merged[..i + 1] == merged[..i] + [merged[i]];
      }
      all := all + nets;
    }
    assert merged[..|merged|] == merged;
  }

  /** The `flat_map(range_to_networks)` of `merge_ranges` as written. `None` is the overflow panic
      of one interval's decomposition, which cannot happen while every interval keeps
      `2 * end - start` below `u128::MAX`. The blocks cover every merged address, and each block's
      address lies in a merged interval, though the block may reach outside it
      (GreedyChainOneToTwo). */
  method DecomposeAsWritten(merged: seq<Interval>) returns (r: Option<seq<Ipv6Net>>)
    ensures (forall i :: 0 <= i < |merged| ==>
               merged[i].start <= merged[i].end && 2 * merged[i].end - merged[i].start < U128_MAX) ==> r.Some?
    ensures r.Some? ==> forall a :: InSome(merged, a) ==> Covered(r.value, a)
    ensures r.Some? ==> forall n :: n in r.value ==> InSome(merged, n.addr)
  {
    var all: seq<Ipv6Net> := [];
    for i := 0 to |merged|
      invariant forall a :: InSome(merged[..i], a) ==> Covered(all, a)
      invariant forall n :: n in all ==> InSome(merged[..i], n.addr)
    {
      var nets := RangeToNetworks(merged[i].start, merged[i].end);
      if nets.None? {
        return None;
      }
      assert merged[..i + 1] == merged[..i] + [merged[i]];
      forall a | InSome(merged[..i + 1], a)
        ensures Covered(all + nets.value, a)
      {
        CoveredAppend(all, nets.value, a);
        InSomeAppend(merged[..i], merged[i], a);
      }
      forall n | n in all + nets.value
        ensures InSome(merged[..i + 1], n.addr)
      {
        InSomeAppend(merged[..i], merged[i], n.addr);
      }
      all := all + nets.value;
    }
    assert merged[..|merged|] == merged;
    r := Some(all);
  }

  // ---------------------------------------------------------------------------------------------
  // Dropping blocks inside other blocks.

  /** `sort_by_key(|network| network.prefix())`. */
  function PrefixKey(n: Ipv6Net): (r: int)
  {
    n.prefix
  }

  /** The derived order of `Ipv6Network`: by address, then by prefix. */
  function NetKey(n: Ipv6Net): (r: int)
  {
    n.addr * 256 + n.prefix
  }

  /** Block `j` of the input has its network in a block that is kept and comes no later. */
  predicate HeldByKept(all: seq<Ipv6Net>, kept: seq<Ipv6Net>, j: int)
    requires 0 <= j < |all|
  {
    exists i :: 0 <= i <= j && all[i] in kept && Contains(all[i], NetworkAddr(all[j]))
  }

  /** The subnet filter of `merge_ranges`: walk the blocks in order and keep a block only when no
      block kept so far contains its network address. The kept blocks are a subsequence of the
      input; every input block's network lies in a block kept at or before its position; and no
      kept block's network lies in a block kept earlier. */
  method EliminateSubnets(all: seq<Ipv6Net>) returns (kept: seq<Ipv6Net>)
    ensures Subsequence(kept, all)
    ensures forall j :: 0 <= j < |all| ==> HeldByKept(all, kept, j)
    ensures forall k, l :: 0 <= k < l < |kept| ==> !Contains(kept[k], NetworkAddr(kept[l]))
  {
    kept := [];
    ghost var idx: seq<int> := [];
    for j := 0 to |all|
      invariant Embedding(idx, kept, all)
      invariant forall k :: 0 <= k < |idx| ==> idx[k] < j
      invariant forall m :: 0 <= m < j ==> HeldByKept(all, kept, m)
      invariant forall k, l :: 0 <= k < l < |kept| ==> !Contains(kept[k], NetworkAddr(kept[l]))
    {
      var network := all[j];
      if Any(kept, (super: Ipv6Net) => Contains(super, NetworkAddr(network))) {
        SkipBlock(all, kept, idx, j);
      } else {
        KeepBlock(all, kept, j);
        EmbeddingPush(idx, kept, all, j);
        idx := idx + [j];
        kept := kept + [network];
      }
    }
  }

  /** A block whose network lies in a kept block is held by that block, which comes earlier. */
  lemma SkipBlock(all: seq<Ipv6Net>, kept: seq<Ipv6Net>, idx: seq<int>, j: int)
    requires Embedding(idx, kept, all) && 0 <= j < |all|
    requires forall k :: 0 <= k < |idx| ==> idx[k] < j
    requires exists k :: 0 <= k < |kept| && Contains(kept[k], NetworkAddr(all[j]))
    ensures HeldByKept(all, kept, j)
  {
    var k :| 0 <= k < |kept| && Contains(kept[k], NetworkAddr(all[j]));
    assert all[idx[k]] in kept;
  }

  /** Keeping block `j` makes it held by itself and leaves earlier blocks held. */
  lemma KeepBlock(all: seq<Ipv6Net>, kept: seq<Ipv6Net>, j: int)
    requires 0 <= j < |all|
    requires forall m :: 0 <= m < j ==> HeldByKept(all, kept, m)
    ensures forall m :: 0 <= m <= j ==> HeldByKept(all, kept + [all[j]], m)
  {
    forall m | 0 <= m <= j
      ensures HeldByKept(all, kept + [all[j]], m)
    {
      if m < j {
        assert HeldByKept(all, kept, m);
        var i :| 0 <= i <= m && all[i] in kept && Contains(all[i], NetworkAddr(all[m]));
        assert all[i] in kept + [all[j]];
      } else {
        ContainsOwnNetwork(all[j]);
        assert all[j] in kept + [all[j]];
      }
    }
  }

  /** When the input is sorted by prefix, every block that is dropped lies inside one that is kept,
      so the kept blocks cover the same addresses. */
  lemma EliminationKeepsCoverage(all: seq<Ipv6Net>, kept: seq<Ipv6Net>, a: int)
    requires SortedBy(all, PrefixKey)
    requires forall n :: n in kept ==> n in all
    requires forall j :: 0 <= j < |all| ==> HeldByKept(all, kept, j)
    ensures Covered(kept, a) <==> Covered(all, a)
  {
    if Covered(all, a) {
      var n :| n in all && Contains(n, a);
      var j :| 0 <= j < |all| && all[j] == n;
      assert HeldByKept(all, kept, j);
      var i :| 0 <= i <= j && all[i] in kept && Contains(all[i], NetworkAddr(all[j]));
      assert PrefixKey(all[i]) <= PrefixKey(all[j]);
      Nested(all[i], all[j], a);
      assert Covered(kept, a);
    }
    if Covered(kept, a) {
      var n :| n in kept && Contains(n, a);
      assert n in all;
    }
  }

  /** When the kept blocks are sorted by prefix, no kept block holds another's network, in either
      order: since blocks never partly overlap, the kept blocks are pairwise disjoint. */
  lemma KeptBlocksApart(kept: seq<Ipv6Net>)
    requires SortedBy(kept, PrefixKey)
    requires forall k, l :: 0 <= k < l < |kept| ==> !Contains(kept[k], NetworkAddr(kept[l]))
    ensures forall x, y :: x in kept && y in kept && x != y ==> !Contains(x, NetworkAddr(y))
  {
    forall x, y | x in kept && y in kept && x != y
      ensures !Contains(x, NetworkAddr(y))
    {
      var k :| 0 <= k < |kept| && kept[k] == x;
      var l :| 0 <= l < |kept| && kept[l] == y;
      if l < k {
        assert PrefixKey(y) <= PrefixKey(x);
        Laminar(y, x);
      }
    }
  }

  // ---------------------------------------------------------------------------------------------
  // `merge_ranges`.

  /** The `(network, broadcast)` pairs of a list of blocks. */
  function Intervals(nets: seq<Ipv6Net>): (r: seq<Interval>)
    ensures |r| == |nets|
  {
    seq(|nets|, i requires 0 <= i < |nets| => Interval(NetworkAddr(nets[i]), Broadcast(nets[i])))
  }

  lemma IntervalsCover(nets: seq<Ipv6Net>, a: int)
    ensures InSome(Intervals(nets), a) <==> Covered(nets, a)
  {
    var rs := Intervals(nets);
    if InSome(rs, a) {
      var i :| 0 <= i < |rs| && InInterval(rs[i], a);
      ContainsIffInRange(nets[i], a);
      assert nets[i] in nets;
    }
    if Covered(nets, a) {
      var n :| n in nets && Contains(n, a);
      var i :| 0 <= i < |nets| && nets[i] == n;
      ContainsIffInRange(n, a);
      assert InInterval(rs[i], a);
    }
  }

  /** Sorting blocks whose address is their network by address and prefix sorts their intervals
      by start. */
  lemma SortedStarts(nets: seq<Ipv6Net>)
    requires SortedBy(nets, NetKey)
    requires forall n :: n in nets ==> n.addr == NetworkAddr(n)
    ensures forall i :: 0 <= i < |nets| - 1 ==> Intervals(nets)[i].start <= Intervals(nets)[i + 1].start
  {
    forall i | 0 <= i < |nets| - 1
      ensures Intervals(nets)[i].start <= Intervals(nets)[i + 1].start
    {
      assert NetKey(nets[i]) <= NetKey(nets[i + 1]);
      assert nets[i] in nets && nets[i + 1] in nets;
    }
  }

  /** Every merged interval ends at an address of some input interval, so a bound on the input
      ends bounds the merged ends. */
  lemma MergedEndsBelow(merged: seq<Interval>, intervals: seq<Interval>, bound: int)
    requires Separated(merged)
    requires forall a :: InSome(merged, a) <==> InSome(intervals, a)
    requires forall i :: 0 <= i < |intervals| ==> intervals[i].end < bound
    ensures forall k :: 0 <= k < |merged| ==> merged[k].end < bound
  {
    forall k | 0 <= k < |merged|
      ensures merged[k].end < bound
    {
      assert InInterval(merged[k], merged[k].end);
      assert InSome(intervals, merged[k].end);
    }
  }

  /** `merge_ranges`: the blocks it returns cover exactly the addresses of its input blocks, are
      sorted by address, each begins at its network address, and none holds the network of
      another, so they are pairwise disjoint. The input must be non-empty (`ranges[0]`); its blocks
      are in canonical form (address equals network address, as in IANA's table), which makes the
      derived order sort them by start; and no block may end at `u128::MAX`, where the steps
      `prev_end + 1` and `broadcast + 1` overflow. */
  method MergeRanges(ranges: seq<Ipv6Net>) returns (r: seq<Ipv6Net>)
    requires |ranges| > 0
    requires forall n :: n in ranges ==> n.addr == NetworkAddr(n) && Broadcast(n) < U128_MAX
    ensures forall a :: Covered(r, a) <==> Covered(ranges, a)
    ensures SortedBy(r, NetKey)
    ensures forall n :: n in r ==> n.addr == NetworkAddr(n)
    ensures forall x, y :: x in r && y in r && x != y ==> !Contains(x, NetworkAddr(y))
  {
    var sorted := SortBy(ranges, NetKey);
    forall n | n in sorted
      ensures n in ranges
    {
      assert n in multiset(sorted);
    }
    var intervals := Intervals(sorted);
    SortedStarts(sorted);
    forall i | 0 <= i < |intervals|
      ensures intervals[i].start <= intervals[i].end < U128_MAX
    {
      assert sorted[i] in sorted;
    }
    var merged := MergeIntervals(intervals);
    MergedEndsBelow(merged, intervals, U128_MAX);
    var all := Decompose(merged);
    var byPrefix := SortBy(all, PrefixKey);
    var kept := EliminateSubnets(byPrefix);
    r := SortBy(kept, NetKey);
    SubsequenceMembers(kept, byPrefix);
    SubsequenceSorted(kept, byPrefix, PrefixKey);
    KeptBlocksApart(kept);
    forall a
      ensures Covered(r, a) <==> Covered(ranges, a)
    {
      CoveredPermutation(r, kept, a);
      EliminationKeepsCoverage(byPrefix, kept, a);
      CoveredPermutation(byPrefix, all, a);
      IntervalsCover(sorted, a);
      CoveredPermutation(sorted, ranges, a);
    }
    forall n | n in r
      ensures n in kept && n.addr == NetworkAddr(n)
    {
      assert n in multiset(r);
      assert n in multiset(byPrefix);
      var k :| 0 <= k < |all| && all[k] == n;
    }
  }

  /** `merge_ranges` as written, with the decomposition of `range_to_networks` as it stands. The
      blocks cover every address of the input, and more where a block reaches outside its
      interval (GreedyChainOneToTwo, GreedyChainZeroToTwo, GreedyChainCoversIetfBlock); each
      still begins at an input address. They are sorted
      by address and none holds the network of another. `None` is an overflow panic, which cannot
      happen while every input block lies below 2^127, as every block of 2000::/3 does. */
  method MergeRangesAsWritten(ranges: seq<Ipv6Net>) returns (r: Option<seq<Ipv6Net>>)
    requires |ranges| > 0
    requires forall n :: n in ranges ==> n.addr == NetworkAddr(n) && Broadcast(n) < U128_MAX
    ensures (forall n :: n in ranges ==> Broadcast(n) < HALF_SPACE) ==> r.Some?
    ensures r.Some? ==> forall a :: Covered(ranges, a) ==> Covered(r.value, a)
    ensures r.Some? ==> forall n :: n in r.value ==> Covered(ranges, n.addr)
    ensures r.Some? ==> SortedBy(r.value, NetKey)
    ensures r.Some? ==> forall x, y :: x in r.value && y in r.value && x != y ==> !Contains(x, NetworkAddr(y))
  {
    var sorted := SortBy(ranges, NetKey);
    forall n | n in sorted
      ensures n in ranges
    {
      assert n in multiset(sorted);
    }
    var intervals := Intervals(sorted);
    SortedStarts(sorted);
    forall i | 0 <= i < |intervals|
      ensures intervals[i].start <= intervals[i].end < U128_MAX
    {
      assert sorted[i] in sorted;
    }
    var merged := MergeIntervals(intervals);
    if forall n :: n in ranges ==> Broadcast(n) < HALF_SPACE {
      forall i | 0 <= i < |intervals|
        ensures intervals[i].end < HALF_SPACE
      {
        assert sorted[i] in sorted;
      }
      MergedEndsBelow(merged, intervals, HALF_SPACE);
    }
    var decomposed := DecomposeAsWritten(merged);
    if decomposed.None? {
      return None;
    }
    var all := decomposed.value;
    var byPrefix := SortBy(all, PrefixKey);
    var kept := EliminateSubnets(byPrefix);
    var out := SortBy(kept, NetKey);
    SubsequenceMembers(kept, byPrefix);
    SubsequenceSorted(kept, byPrefix, PrefixKey);
    KeptBlocksApart(kept);
    forall a | Covered(ranges, a)
      ensures Covered(out, a)
    {
      CoveredPermutation(out, kept, a);
      EliminationKeepsCoverage(byPrefix, kept, a);
      CoveredPermutation(byPrefix, all, a);
      IntervalsCover(sorted, a);
      CoveredPermutation(sorted, ranges, a);
    }
    forall n | n in out
      ensures n in kept && Covered(ranges, n.addr)
    {
      assert n in multiset(out);
      assert n in multiset(byPrefix);
      IntervalsCover(sorted, n.addr);
      CoveredPermutation(sorted, ranges, n.addr);
    }
    r := Some(out);
  }

  // ---------------------------------------------------------------------------------------------
  // The 32-bit table.

  /** `four_byte_networks`: the top 32 bits of the block's network address (`to_bits() >> 96`) and
      its prefix, unchanged. For a prefix of at most 32 that 32-bit network has no bit set below
      the prefix. */
  function FourByteNetworks(n: Ipv6Net): (r: (nat, nat))
    ensures r.0 < 0x1_0000_0000 && r.1 == n.prefix
    ensures r.0 * TOP_UNIT <= NetworkAddr(n) < r.0 * TOP_UNIT + TOP_UNIT
    ensures 1 <= n.prefix <= 32 ==> r.0 % Pow2(32 - n.prefix) == 0
  {
    TopAligned(n);
    (NetworkAddr(n) / TOP_UNIT, n.prefix)
  }

  /** The block size of a prefix up to 32 is 2^96 times the 32-bit block size. */
  lemma BlockSizeSplit(prefix: PrefixLen)
    requires prefix <= 32
    ensures BlockSize(prefix) == TOP_UNIT * Pow2(32 - prefix)
  {
    Pow2Add(96, 32 - prefix);
    Pow2Of96();
  }

  lemma TopAligned(n: Ipv6Net)
    ensures 1 <= n.prefix <= 32 ==> (NetworkAddr(n) / TOP_UNIT) % Pow2(32 - n.prefix) == 0
  {
    if 1 <= n.prefix <= 32 {
      var m := Pow2(32 - n.prefix);
      BlockSizeSplit(n.prefix);
      var q := NetworkAddr(n) / BlockSize(n.prefix);
      DivExact(NetworkAddr(n), BlockSize(n.prefix));
      MulAssoc(q, m, TOP_UNIT);
      DivOfProduct(q * m, TOP_UNIT);
      DivOfProduct(q, m);
    }
  }

  /** What `contains_v6` computes for a table entry `FourByteNetwork::new(network, prefix)` whose
      network has no bit set below the prefix, read on integers: the top 32 bits of the address agree
      with the network on the top `prefix` of them. */
  predicate ContainsTop(e: (nat, nat), top: int)
  {
    1 <= e.1 <= 32 && top / Pow2(32 - e.1) == e.0 / Pow2(32 - e.1)
  }

  /** For a prefix from 1 to 32 the pair loses nothing: an address is in the block exactly when its
      top 32 bits are in the 32-bit network of the pair. */
  lemma FourByteLossless(n: Ipv6Net, a: U128)
    requires 1 <= n.prefix <= 32
    ensures Contains(n, a) <==> ContainsTop(FourByteNetworks(n), a / TOP_UNIT)
  {
    var m := Pow2(32 - n.prefix);
    BlockSizeSplit(n.prefix);
    DivDiv(a, TOP_UNIT, m);
    DivDiv(NetworkAddr(n), TOP_UNIT, m);
    ContainsOwnNetwork(n);
  }

  /** Some entry of the table contains the top 32 bits `top`. */
  predicate TableContains(table: seq<(nat, nat)>, top: int)
  {
    exists e :: e in table && ContainsTop(e, top)
  }

  /** Some reachable row of the assignment table contains the address. */
  predicate ReachableAddress(allocations: seq<Ipv6Allocation>, a: int)
  {
    exists i :: 0 <= i < |allocations| && Reachable(allocations[i]) && Contains(allocations[i].prefix, a)
  }

  /** `main`, up to writing the table out: filter, merge, and map to 32-bit pairs. When every pair
      has a prefix from 1 to 32 (the range `FourByteNetwork::new` accepts when the written table is
      compiled), an address's top 32 bits are in the table exactly when the address lies in a
      reachable allocation. */
  method Compile(allocations: seq<Ipv6Allocation>) returns (table: seq<(nat, nat)>)
    requires |ReachablePrefixes(allocations)| > 0
    requires forall n :: n in ReachablePrefixes(allocations) ==> n.addr == NetworkAddr(n) && Broadcast(n) < U128_MAX
    ensures (forall e :: e in table ==> 1 <= e.1 <= 32) ==>
              forall a: U128 :: TableContains(table, a / TOP_UNIT) <==> ReachableAddress(allocations, a)
  {
    var networks := ReachablePrefixes(allocations);
    var merged := MergeRanges(networks);
    table := seq(|merged|, i requires 0 <= i < |merged| => FourByteNetworks(merged[i]));
    if forall e :: e in table ==> 1 <= e.1 <= 32 {
      forall a: U128
        ensures TableContains(table, a / TOP_UNIT) <==> ReachableAddress(allocations, a)
      {
        TableMatchesBlocks(merged, table, a);
        ReachableCovered(allocations, a);
      }
    }
  }

  /** `main` as written, up to writing the table out. `None` is an overflow panic of `merge_ranges`,
      which cannot happen while every reachable allocation lies below 2^127. When every pair has a
      prefix from 1 to 32, the top 32 bits of every reachable address are in the table; the
      converse fails (GreedyChainCoversIetfBlock). */
  method CompileAsWritten(allocations: seq<Ipv6Allocation>) returns (r: Option<seq<(nat, nat)>>)
    requires |ReachablePrefixes(allocations)| > 0
    requires forall n :: n in ReachablePrefixes(allocations) ==> n.addr == NetworkAddr(n) && Broadcast(n) < U128_MAX
    ensures (forall n :: n in ReachablePrefixes(allocations) ==> Broadcast(n) < HALF_SPACE) ==> r.Some?
    ensures r.Some? && (forall e :: e in r.value ==> 1 <= e.1 <= 32) ==>
              forall a: U128 :: ReachableAddress(allocations, a) ==> TableContains(r.value, a / TOP_UNIT)
  {
    var networks := ReachablePrefixes(allocations);
    var merged := MergeRangesAsWritten(networks);
    if merged.None? {
      return None;
    }
    var blocks := merged.value;
    var table := seq(|blocks|, i requires 0 <= i < |blocks| => FourByteNetworks(blocks[i]));
    if forall e :: e in table ==> 1 <= e.1 <= 32 {
      forall a: U128 | ReachableAddress(allocations, a)
        ensures TableContains(table, a / TOP_UNIT)
      {
        TableMatchesBlocks(blocks, table, a);
        ReachableCovered(allocations, a);
      }
    }
    r := Some(table);
  }

  lemma TableMatchesBlocks(merged: seq<Ipv6Net>, table: seq<(nat, nat)>, a: U128)
    requires |table| == |merged|
    requires forall i :: 0 <= i < |merged| ==> table[i] == FourByteNetworks(merged[i])
    requires forall e :: e in table ==> 1 <= e.1 <= 32
    ensures TableContains(table, a / TOP_UNIT) <==> Covered(merged, a)
  {
    if TableContains(table, a / TOP_UNIT) {
      var e :| e in table && ContainsTop(e, a / TOP_UNIT);
      var i :| 0 <= i < |table| && table[i] == e;
      FourByteLossless(merged[i], a);
      assert merged[i] in merged;
    }
    if Covered(merged, a) {
      var n :| n in merged && Contains(n, a);
      var i :| 0 <= i < |merged| && merged[i] == n;
      assert table[i] in table;
      FourByteLossless(n, a);
    }
  }

  lemma ReachableCovered(allocations: seq<Ipv6Allocation>, a: int)
    ensures Covered(ReachablePrefixes(allocations), a) <==> ReachableAddress(allocations, a)
  {
    var networks := ReachablePrefixes(allocations);
    if Covered(networks, a) {
      var n :| n in networks && Contains(n, a);
      ReachablePrefixesMembers(allocations, n);
    }
    if ReachableAddress(allocations, a) {
      var i :| 0 <= i < |allocations| && Reachable(allocations[i]) && Contains(allocations[i].prefix, a);
      ReachablePrefixesMembers(allocations, allocations[i].prefix);
    }
  }
}
