# bogon — a verified model of the allocation compiler and the containment engine

`bogon` tells whether an IP address is a bogon, that is, an address that should not appear on the
public internet. It has two parts, and this project models both in Dafny.

- **Allocation compiler** (`build.rs`). It reads IANA's IPv6 unicast assignment table and keeps the
  rows that are `ALLOCATED` to one of the five regional internet registries. It merges their
  `[network, broadcast]` intervals. It cuts the merged intervals back into CIDR blocks and drops
  blocks that lie inside other blocks. Finally it writes each block as a pair (top 32 bits of the
  network, prefix).
- **Containment engine** (`src/network.rs`, `src/lib.rs`). A `FourByteNetwork` is a 32-bit network
  with the mask `u32::MAX << (32 - prefix)`, and membership is `(ip & mask) == network`.
  - `is_bogon_v4` scans a fixed table of 15 special-use IPv4 blocks.
  - `is_bogon_v6` treats every address outside 2000::/3 as a bogon. Inside that range it scans the
    generated table on the top 32 bits of the address.
  - `is_bogon` dispatches on the address family, and `is_bogon_str` parses a string first.

Layout:

| file | module | models |
|---|---|---|
| `core_net.dfy` | `CoreNet` | the `core::net` address values the engine reads (`to_bits`, `segments()[0]`) |
| `network.dfy` | `Network` | `FourByteNetwork` over 32-bit bit-vectors: the source's own `&`, `<<` and `leading_zeros` |
| `bogon.dfy` | `Bogon` | the IPv4 table, `is_bogon_v4`, `is_bogon_v6`, `is_bogon` and `is_bogon_str` |
| `iter.dfy` | `Iter` | `Iterator::any`, used by both halves |
| `ipv6_block.dfy` | `Ipv6Block` | the build script's IPv6 blocks on integers below 2^128: `network()`, `broadcast()`, `contains`, `leading_zeros`, `trailing_zeros` |
| `sorting.dfy` | `Sorting` | the slice sorts (`sort`, `sort_by_key`) and subsequences |
| `build.dfy` | `AllocationCompiler` | the filter of `main`, `merge_ranges`, `range_to_networks` (as written and corrected), `four_byte_networks`, and the pipeline of `main` |

The runtime works on bit-vectors (`bv32`, with prefixes as `bv8` like Rust's `u8`), because its
operations are bit operations. The build script works on unbounded integers restricted to
`0 .. 2^128`, because its reasoning is about intervals. There, clearing the low `128 - prefix`
bits is rounding down to a multiple of 2^(128 - prefix).

The generated table `V6_ALLOCATIONS` is a parameter `allocations` of the runtime predicates. Every
runtime statement therefore holds for whatever table the build produces. `CompileAsWritten` and
`Compile` state what the build, as written and corrected, guarantees about that table.

`range_to_networks` says it takes "the largest prefix length that fits the range" (build.rs:168)
and "the largest power of 2 in the length of the range" (build.rs:174). Its code does neither: it
takes the smallest power of two above `end - start` and lays the block down on the aligned
boundary at or below `start` (see Findings), so a block can reach outside its interval. The model
therefore has the pipeline twice:

- as written: `RangeToNetworks`, `DecomposeAsWritten`, `MergeRangesAsWritten` and
  `CompileAsWritten` follow the code, and prove that the table covers every reachable address
  (a superset);
- corrected: `RangeToNetworksAligned`, `Decompose`, `MergeRanges` and `Compile` use aligned
  blocks, and prove that the table covers exactly the reachable addresses.

## Model

| member | source | states |
|---|---|---|
| `CoreNet.Ipv4` | src/lib.rs:59-87 | `Ipv4Addr::new(a, b, c, d).to_bits()` holds `a`, `b`, `c`, `d` as its four bytes, most significant first |
| `CoreNet.Ipv6` | src/lib.rs:175 | `Ipv6Addr::new` puts the first segment in the top 16 bits, which `segments()[0]` reads back |
| `Network.NewMaskBits` | src/network.rs:15-17 | for a prefix of 1 to 32, the mask `new` builds has bit `i` set exactly when `i >= 32 - prefix`, i.e. exactly the top `prefix` bits |
| `Network.HostPartOfNew` | src/network.rs:15-17 | the complement of a `new` mask is a run of low one bits |
| `Network.HostPartValue` | src/network.rs:16 | that complement is 2^(32 - prefix) - 1 |
| `Network.ContainsV4Range` | src/network.rs:20-22 | for a network with a prefix mask and no bit below its prefix, `contains_v4` holds exactly for `network ..= network + !mask` |
| `Network.NewIsCanonical` | src/network.rs:15-17 | `new` of a network with no bit below the prefix gives such a network |
| `Network.NewBlockRange` | src/network.rs:15-22 | such a network contains exactly the addresses `network ..= network + 2^(32 - prefix) - 1` |
| `Network.ContainsV4FullPrefix` | src/network.rs:16-22 | with prefix 32, `contains_v4(ip)` holds exactly when `ip == network` |
| `Network.ContainsV4NoneWhenHostBitsSet` | src/network.rs:20-22 | a network with a bit set below its prefix contains no address |
| `Network.ContainsV6OnlyTopBits` | src/network.rs:24-27 | `contains_v6` equals `contains_v4` on the top 32 bits, so addresses that agree there are contained in the same networks |
| `Network.Prefix` | src/network.rs:30-32 | `prefix()` is at most 32 |
| `Network.PrefixOfNewIs32` | src/network.rs:30-32 | as written, `prefix()` is 32 for every network `new` builds, whatever the prefix (Findings) |
| `Network.PrefixLengthOfNew` | src/network.rs:30-32 | the corrected `32 - trailing_zeros(mask)` gives back the prefix `new` was called with |
| `Bogon.V4EntryWellFormed` | src/lib.rs:57-88 | each of the 15 entries has a prefix mask and no network bit below its prefix |
| `Bogon.V4TableWellFormed` | src/lib.rs:57-88 | the table has exactly 15 entries and all of them are well formed |
| `Bogon.IsBogonV4Iff` | src/lib.rs:152-156 | `is_bogon_v4(ip)` holds exactly when some entry of the table contains `ip` |
| `Bogon.BlockMembersAreBogon` | src/lib.rs:152-156 | every address from an entry's network to network + host part is a bogon |
| `Bogon.EntryMemberIsBogon` | src/lib.rs:152-156 | an address some entry contains is a bogon |
| `Bogon.LoopbackIsBogon` | src/lib.rs:148 | 127.0.0.1 is a bogon |
| `Bogon.PublicDnsOutsideEntry` | src/lib.rs:149 | no entry of the table contains 8.8.8.8 |
| `Bogon.PublicDnsIsNotBogon` | src/lib.rs:149 | 8.8.8.8 is not a bogon |
| `Bogon.OutsideGlobalUnicastIsBogon` | src/lib.rs:175-177 | outside 2000::/3, `is_bogon_v6` is true whatever the table holds |
| `Bogon.InsideGlobalUnicast` | src/lib.rs:180-182 | inside 2000::/3, `is_bogon_v6(ip)` holds exactly when no table entry contains the top 32 bits of `ip` |
| `Bogon.IsBogonV6OnlyTopBits` | src/lib.rs:173-183 | the IPv6 verdict depends only on the top 32 bits of the address |
| `Bogon.LoopbackV6IsBogon` | src/lib.rs:169 | `::1` is a bogon for every table |
| `Bogon.CloudflareDnsIsNotBogon` | src/lib.rs:170 | `2606:4700:4700:1111::2` is not a bogon once some entry contains 0x26064700 |
| `Bogon.IsBogonDispatch` | src/lib.rs:107-112 | `is_bogon` gives `is_bogon_v4` on IPv4, which ignores the IPv6 table, and `is_bogon_v6` on IPv6 |
| `Bogon.IsBogonStr` | src/lib.rs:133-135 | a parse error is returned unchanged; a parsed address gives `Ok(is_bogon(address))` |
| `Iter.Any` | src/lib.rs:153-155 | `any` is true exactly when some element satisfies the predicate |
| `AllocationCompiler.ReachablePrefixesOfRow` | build.rs:35-41 | a single row is kept, as its prefix alone, exactly when its status is `ALLOCATED` and its designation is one of the five registries |
| `AllocationCompiler.ReachablePrefixesAppend` | build.rs:37-41 | the filter works row by row and keeps the table order |
| `AllocationCompiler.ReachablePrefixesMembers` | build.rs:37-41 | a prefix is selected exactly when some reachable row carries it |
| `Sorting.SortBy` | build.rs:116 | the sort returns a permutation of its input, ordered by the key |
| `Ipv6Block.NetworkAddr` | build.rs:121 | `network()` is the largest multiple of the block size not above the address |
| `Ipv6Block.Broadcast` | build.rs:121 | `broadcast()` is the network plus the block size minus one, and lies below 2^128 |
| `Ipv6Block.ContainsIffInRange` | build.rs:152 | `contains` holds exactly for the addresses from `network()` to `broadcast()` |
| `Ipv6Block.Nested` | build.rs:150-152 | a block holds every address of a longer-prefix block whose network it holds |
| `Ipv6Block.Laminar` | build.rs:150-152 | if a longer-prefix block holds a shorter-prefix block's network, the shorter one holds the longer one's network: blocks never partly overlap |
| `Ipv6Block.LeadingZeros` | build.rs:175 | `leading_zeros(x)` as a prefix gives the smallest block larger than `x`, at most twice `x`, and it is 128 exactly when `x == 0` |
| `Ipv6Block.TrailingZeros` | build.rs:175 | `x` is a multiple of 2^`trailing_zeros(x)` (used by the corrected decomposition) |
| `AllocationCompiler.IntervalsCover` | build.rs:119-122 | an address is in some `(network, broadcast)` pair exactly when some block contains it |
| `AllocationCompiler.SortedStarts` | build.rs:116-122 | sorting blocks by address and prefix puts their intervals in order of start |
| `AllocationCompiler.MergeIntervals` | build.rs:125-137 | the merged intervals are non-empty, in increasing order, each next start above the previous end + 1, and cover exactly the input intervals; `prev_end + 1` never overflows |
| `AllocationCompiler.MergedEndsBelow` | build.rs:130 | every merged end lies in some input interval, so any bound on the input ends bounds the merged ends |
| `AllocationCompiler.GreedyBlock` | build.rs:175-177 | the block at `start` has prefix 128 exactly when `start == end`, contains `start`, and is larger than `end - start` |
| `AllocationCompiler.GreedyBlockBound` | build.rs:175-181 | that block ends at or below `2 * end - start` |
| `AllocationCompiler.RangeToNetworks` | build.rs:167-186 | as written: every block is built at the address after the previous one with prefix `leading_zeros(end - start)`, the blocks cover all of `start ..= end`, each block's address lies in `start ..= end`, and `broadcast + 1` does not overflow while `2 * end - start < u128::MAX` |
| `AllocationCompiler.GreedyChainIncreasing` | build.rs:173-182 | `start` strictly increases from block to block |
| `AllocationCompiler.GreedyChainOneToTwo` | build.rs:175-177 | the range 1..=2 gives the block 1/127, which also holds 0 (Findings) |
| `AllocationCompiler.GreedyChainZeroToTwo` | build.rs:175-177 | the range 0..=2, aligned at its start, gives the block 0/126, which also holds 3 (Findings) |
| `AllocationCompiler.GreedyChainCoversIetfBlock` | build.rs:175-177 | the range 2001:200:: ..= 2001:5ff:ffff:… gives a first block of prefix 22 that holds 2001:: (Findings) |
| `AllocationCompiler.AlignedExponent` | build.rs:175 | corrected: the block size at `start` divides `start` and fits in the rest of the range |
| `AllocationCompiler.AlignedBlock` | build.rs:175-177 | corrected: the block starts exactly at `start` and ends within the range |
| `AllocationCompiler.RangeToNetworksAligned` | build.rs:167-186 | corrected: the blocks cover exactly `start ..= end` and each begins at its network address |
| `AllocationCompiler.DecomposeAsWritten` | build.rs:140-143 | as written: the blocks cover every merged address and each block's address lies in a merged interval; no overflow while every interval has `2 * end - start < u128::MAX` |
| `AllocationCompiler.Decompose` | build.rs:140-143 | corrected: the blocks of all merged intervals cover exactly those intervals |
| `AllocationCompiler.EliminateSubnets` | build.rs:147-157 | the kept blocks are a subsequence of the input; every input block's network lies in a block kept at or before it; no kept block's network lies in an earlier kept block |
| `AllocationCompiler.SkipBlock` | build.rs:150-155 | a dropped block's network lies in a kept block that comes earlier |
| `AllocationCompiler.KeepBlock` | build.rs:156 | keeping a block covers its own network and keeps earlier blocks covered |
| `AllocationCompiler.EliminationKeepsCoverage` | build.rs:145-157 | for input sorted by prefix, the kept blocks cover the same addresses as all blocks |
| `AllocationCompiler.KeptBlocksApart` | build.rs:145-160 | no kept block holds another kept block's network, in either order |
| `AllocationCompiler.MergeRangesAsWritten` | build.rs:114-164 | as written: for a non-empty input of blocks in canonical form whose broadcast is below `u128::MAX`, the result covers every input address and each block begins at an input address; it is sorted by address and no block holds another's network; no overflow while every input block lies below 2^127 |
| `AllocationCompiler.MergeRanges` | build.rs:114-164 | corrected: for a non-empty input of blocks in canonical form with no broadcast at `u128::MAX`, the result covers exactly the same addresses, is sorted by address, has blocks in canonical form, and no block holds another's network |
| `AllocationCompiler.FourByteNetworks` | build.rs:189-192 | the pair is the top 32 bits of the network, which fit a `u32`, and the prefix unchanged; for prefixes up to 32 it has no bit below the prefix |
| `AllocationCompiler.FourByteLossless` | build.rs:189-192 | for a prefix from 1 to 32, an address is in the block exactly when its top 32 bits are in the pair's 32-bit network |
| `AllocationCompiler.CompileAsWritten` | build.rs:29-50 | as written: for reachable prefixes that are non-empty, in canonical form and with broadcast below `u128::MAX`, when every pair has a prefix from 1 to 32, the top 32 bits of every reachable address are in the table; no overflow while every reachable allocation lies below 2^127 |
| `AllocationCompiler.Compile` | build.rs:29-50 | corrected: for reachable prefixes that are non-empty, in canonical form and with broadcast below `u128::MAX`, when every pair has a prefix from 1 to 32, the top 32 bits of an address are in the table exactly when the address lies in a reachable allocation |
| `AllocationCompiler.ReachableCovered` | build.rs:35-41 | the selected prefixes cover exactly the addresses of reachable rows |
| `AllocationCompiler.TableMatchesBlocks` | build.rs:47-50 | the written pairs hold an address's top 32 bits exactly when the merged blocks hold the address |

## Left out

- Downloading the table and the retry loop (build.rs:59-102) are network I/O and timing. CSV and serde parsing (build.rs:9-25, 106-107) is a foreign library. `CompileAsWritten` and `Compile` take the parsed rows.
- `write_file` (build.rs:195-217) and the `include!` of its output (src/lib.rs:47-52) are file I/O and code generation. The runtime takes the table as the parameter `allocations`.
- Writing the table out is not proved equal, bit for bit, to the runtime `FourByteNetwork`. `CompileAsWritten` and `Compile` state the table property on integers (`ContainsTop`), and `Network.NewBlockRange` states the bit-vector side.
- `ipnetwork` is not modelled. `Ipv6Net` stands in for `Ipv6Network`, with `network()`, `broadcast()` and `contains` defined by arithmetic. `Ipv6Network::new(..).unwrap()` cannot fail here, since `leading_zeros` is at most 128.
- The derived order of `Ipv6Network` (address, then prefix) is the integer key `addr * 256 + prefix`.
- `MergeRanges`, `Decompose` and `Compile`: model the pipeline with the corrected decomposition, not build.rs as written. Their exact coverage does not hold for the code as it stands (Findings). The as-written pipeline is `MergeRangesAsWritten`, `DecomposeAsWritten` and `CompileAsWritten`.
- `MergeRanges` and `MergeRangesAsWritten`: require blocks in canonical form (address equals network address), as the table's rows are. For other input, sorting by address does not sort by network, and the model does not say what the merge then does.
- `MergeRangesAsWritten`: proves only that the result covers at least the input addresses, and that each block begins at one of them. It does not bound how far a block reaches outside its interval.
- `CompileAsWritten`: proves only that reachable addresses are in the table. The converse is false (Findings).
- `MergeRangesAsWritten` and `CompileAsWritten`: guarantee `Some` only when every input block lies below 2^127, as all of 2000::/3 does. They do not characterise every input that overflows.
- Overflow is modelled as the panic of a debug build, not as release-mode wrap-around.
  - `prev_end + 1` is excluded by `MergeIntervals`'s precondition.
  - `broadcast + 1` is the `None` result of `RangeToNetworks`, `DecomposeAsWritten`, `MergeRangesAsWritten` and `CompileAsWritten`. The corrected `MergeRanges` excludes it by its precondition.
- `RangeToNetworks`: guarantees `Some` only when `2 * end - start < u128::MAX`. It does not characterise every input that overflows.
- `Sorting.SortBy`: does not state stability, and no property stated here depends on it. In the corrected pipeline every block is in canonical form, so two blocks with the same prefix are identical or disjoint, and their order does not change which are kept; `sort()`'s key (address, prefix) is equal only for identical blocks. In the as-written pipeline, two different blocks can share a prefix and a network but keep different unmasked addresses: 0/126, 4/128, 6/127, 8/127 and 10/128 merge to 0..=4 and 6..=10, whose first blocks are 0/125 and 6/125, both with network 0. There the stable `sort_by_key` (build.rs:145) decides which of the two survives elimination. That changes the list `merge_ranges` returns, but not the written table, since both give the same pair. Sorting returns a new sequence instead of sorting the vector in place.
- `AlignedExponent`: does not state that its block is the largest possible. Minimality of the corrected decomposition is not proved, only exact coverage.
- `TrailingZeros`: states only that `x` is a multiple of 2^`trailing_zeros(x)`, not that the count is maximal.
- `MergeRanges`: does not prove the result has the fewest possible blocks.
- Textual address parsing in `is_bogon_str` is the standard library's. It is the parameter `parse`.
- `src/ext.rs` (a trait that only delegates) and `benches/ipv4.rs` (random inputs and timing) are not part of this model.
- Claims about SIMD code generation are not part of this model.
- The runtime's IPv6 address is its top 32 bits and its low 96 bits. Segments other than the first are not modelled separately.

## Findings

| source | as written | input that shows it | evidently intended | confidence | as-written member | corrected member |
|---|---|---|---|---|---|---|
| build.rs:175-177 | the block at `start` gets prefix `leading_zeros(end - start)`. This goes wrong in two ways. The block size is the smallest power of two above `end - start`, not the largest that fits in the range. And whatever the alignment of `start`, `Ipv6Network` rounds the block down to a boundary at or below `start` | range 1..=2 gives block 1/127, which holds 0. Range 0..=2 gives block 0/126, which holds 3. Merging 2001:200::/23 and 2001:400::/23 gives a first block 2001:200::/22 with network 2001::, which holds the IETF block 2001::/23. `CompileAsWritten` then writes `(0x2001_0000, 22)`, which makes 2001:: non-bogon | as build.rs:168 and 174 say, the largest block that fits the range, laid down at `start`, so that the blocks cover exactly `start ..= end` | not executed | `AllocationCompiler.GreedyChainCoversIetfBlock` | `AllocationCompiler.RangeToNetworksAligned` |
| src/network.rs:30-32 | `prefix()` is `32 - mask.leading_zeros()`; a prefix mask has its top bit set, so the result is always 32 and the test at src/net_tests.rs:36 checks nothing | `new(0x0A00_0000, 8)` has `prefix() == 32` | the number of one bits of the mask, `32 - mask.trailing_zeros()` | not executed | `Network.PrefixOfNewIs32` | `Network.PrefixLengthOfNew` |
