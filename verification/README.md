# Verified model of the APEC network functions

A Dafny model of the algorithmic parts of the APEC developer demo, with proofs that each fast
form does what its simple specification says, for all inputs and over all runs:

- **Longest-prefix match** (`Routes`, `Lpm4`, `Lpm6`). The DIR-24-8 table, with its packed
  32-bit entries and lazily allocated groups, answers every address as the list of routes does
  (longest match, section 5.1 of RFC 4632). The one limit of the code is stated exactly: a table
  can take every further route if and only if it uses fewer than 65536 groups, and beyond that the
  blocks that share a group number are the ones that answers can be wrong for. The IPv6 list is
  proved against the same kind of reference.
- **Maglev table** (`Permutation`, `Greedy`, `MaglevRows`, `MaglevTables`, `MaglevWrap`, `MaglevPrograms`).
  Termination of the greedy fill rests on 65537 being prime; the finished table is the one
  greedy table and is exactly balanced. The 32-bit wrap-around of the on-the-fly and the C++ form
  is modelled: the seeds for which it keeps a fill from ending, and those for which it shows in
  the finished table, are characterised by exact conditions.
- **Connection cache** (`Crc`, `Cache`, `CachePrograms`). The bucket cache cannot be observed, is
  a first-in first-out queue of the last four misses, and the C++ form, with its eviction
  pointer packed into an entry, simulates the Rust form. The bucket function is proved to be
  the CRC-32C division (section 12.1 of RFC 3720).
- **Checksum rewrite** (`Checksum`, `Rewrite`). Incremental updates (equation 3 in section 3 of
  RFC 1624) agree bit for bit with full recomputation (RFC 1071, section 3.1 of RFC 791,
  RFC 768), compose and cancel, and keep the defect of wrong checksums.
- **Prefixer and receiver** (`Fnv`, `Flow`, `Receiver`). What the XDP program puts in front of a
  frame is what the software parser finds in it, and the receiver's counters account for every
  frame.

Words are natural numbers below a power of two. `Bits` defines the bitwise operators on binary
digits and turns the masks and shifts of the programs into arithmetic. `Counting` holds the
pigeonhole principle, `Arithmetic` the uniqueness of division.

Two places where code and comments differ; the model follows the code:

- The comment at `rs/l3fwd/src/lpm.rs:12-13` gives the entry's low 16 bits to the group number;
  `rs/l3fwd/src/lpm.rs:72` stores the whole number there, so the 65537th group is read back as
  group 0 (`Lpm4.RoomIsNeeded`, `Lpm4.OverflowHappens`).
- `apec-demo/rs/maglev/src/table.rs:5-8` promises results identical to the C++ table. That holds
  for all seeds for which the C++ table reads inside its matrix
  (`MaglevPrograms.PopulateFormsAgree`); for the others `MaglevTables.MatrixSufficesIff` and
  `MaglevTables.PopulateEndsIff` say what happens.

`dafny verify dfyconfig.toml` checks the project.

## Model

| member | source | states |
|---|---|---|
| `Routes.BestIsLongestMatch` | rs/l3fwd/src/lpm.rs:43-44 | the reference answer is the deepest covering route, the last added among equals, and None exactly when no route covers the address |
| `Routes.MaskedValue` | rs/l3fwd/src/lpm.rs:46 | `net & (u32::MAX << (32 - depth))`, with its special case for depth 0, clears exactly the host bits |
| `Routes.CoversIsMasked` | rs/l3fwd/src/lpm.rs:46 | a route covers an address, bit by bit, exactly when their masked forms are equal |
| `Routes.CoversIsDivision` | rs/l3fwd/src/lpm.rs:46 | a route covers an address exactly when both are equal after division by 2^(32 - depth) |
| `Routes.ShallowRange` | rs/l3fwd/src/lpm.rs:48-51 | a prefix of depth at most 24 covers exactly the addresses of the blocks that the first loop visits |
| `Routes.DeepRange` | rs/l3fwd/src/lpm.rs:66-77 | a deeper prefix stays in one block and covers exactly the entries that the second loop visits |
| `Lpm4.Entry` | rs/l3fwd/src/lpm.rs:19-29 | the packed entry is valid, not extended, and gives back its depth and next hop |
| `Lpm4.GroupEntry` | rs/l3fwd/src/lpm.rs:72-74 | the packed group number is read back modulo 65536, with both flags set |
| `Lpm4.AddCell` | rs/l3fwd/src/lpm.rs:44-82 | one add repaints the decisive entry of exactly the covered addresses, and only where it is empty or no deeper; every other address keeps its entry |
| `Lpm4.ExtendCell` | rs/l3fwd/src/lpm.rs:68-73 | giving a block its own group changes no answer |
| `Lpm4.AddOwned` | rs/l3fwd/src/lpm.rs:67-74 | every add keeps each group owned by exactly one block |
| `Lpm4.BuildIsRight` | rs/l3fwd/src/lpm.rs:39-82 | in every reachable state the extended blocks are those with deep routes, each group has one owner, and each address's entry is that of its best route |
| `Lpm4.LookupIsLongestMatch` | rs/l3fwd/src/lpm.rs:44-100 | after any sequence of adds with deep routes in at most 65536 blocks, every address gets the next hop of a deepest covering route, the last added among equals, and None exactly when no route covers it |
| `Lpm4.OrderIsIrrelevant` | rs/l3fwd/src/lpm.rs:43-44 | routes with pairwise different prefixes give the same answers in every insertion order |
| `Lpm4.BuildExtends` | rs/l3fwd/src/lpm.rs:67-74 | in every reachable state, however many groups it uses, exactly the blocks with deep routes have one |
| `Lpm4.RoomIsNeeded` | rs/l3fwd/src/lpm.rs:69-74 | any reachable table, also one beyond the limit, answers correctly after every possible further add if and only if it uses fewer than 65536 groups |
| `Lpm4.Overflow` | rs/l3fwd/src/lpm.rs:72-74 | from 65536 groups on, some host route changes the answer for an address that it does not cover |
| `Lpm4.OverflowHappens` | rs/l3fwd/src/lpm.rs:72-74 | host routes in blocks 0 to 65535 are all answered correctly, and one more makes an answer wrong |
| `Lpm4.AloneAnswer` | rs/l3fwd/src/lpm.rs:44-100 | in every reachable state, also beyond the limit, an address whose block shares its group number with no other block gets the next hop of its longest match |
| `Lpm4.AloneIff` | rs/l3fwd/src/lpm.rs:69-98 | all addresses of a block stay correctly answered after every possible add that needs no new group if and only if the block shares its number with no other |
| `Lpm4.Lpm.constructor` | rs/l3fwd/src/lpm.rs:39-41 | a new table is the empty run |
| `Lpm4.Lpm.Add` | rs/l3fwd/src/lpm.rs:44-82 | the in-place add extends the run by this route, also beyond 65536 groups |
| `Lpm4.Lpm.AddToBlocks` | rs/l3fwd/src/lpm.rs:51-62 | the loop over blocks, with groups painted through their entries |
| `Lpm4.Lpm.AddToEntries` | rs/l3fwd/src/lpm.rs:77-81 | the loop over second-level entries changes exactly its range, and there only what is empty or no deeper |
| `Lpm4.Lpm.Lookup` | rs/l3fwd/src/lpm.rs:86-100 | the lookup is the longest match of all routes added, while the deep ones fit |
| `Lpm6.MatchesIsCovers` | rs/l3fwd/src/lpm.rs:130-142 | comparing whole bytes and masking one more is comparing the first `depth` bits |
| `Lpm6.CoversInBytes` | rs/l3fwd/src/lpm.rs:130-142 | which is equality of the whole bytes, and of one more after division by 2^(8 - depth % 8) |
| `Lpm6.SortIsStable` | rs/l3fwd/src/lpm.rs:124 | the sorted list is deepest first and keeps the order of routes of one depth |
| `Lpm6.StableSortIsUnique` | rs/l3fwd/src/lpm.rs:124 | what a stable sort promises determines the list |
| `Lpm6.SortIncremental` | rs/l3fwd/src/lpm.rs:121-125 | sorting after every add is sorting once |
| `Lpm6.FirstMatchIsBest` | rs/l3fwd/src/lpm.rs:112-145 | the first match of the sorted list is the deepest covering route, the earliest added among equals |
| `Lpm6.Best6IsLongestMatch` | rs/l3fwd/src/lpm.rs:127-145 | the reference for IPv6 is a longest match, and None exactly when no route covers |
| `Lpm6.Lpm6.Add` | rs/l3fwd/src/lpm.rs:121-125 | every add keeps the list deepest first, with each depth in insertion order |
| `Lpm6.Lpm6.Lookup` | rs/l3fwd/src/lpm.rs:129-145 | the scan returns the next hop of the longest match over all routes added, or None when there is none |
| `Permutation.RowWalk` | rs/maglev/src/maglev_table.rs:30-36 | adding skip and subtracting the size on overflow yields the next (off + j * skip) mod m |
| `Permutation.RowIsPermutation` | rs/maglev/src/maglev_table.rs:25-37 | for a prime size and any skip from 1 up, the row visits every slot exactly once |
| `Permutation.Prime65537` | rs/maglev/src/maglev_table.rs:6 | the table size is prime |
| `Greedy.ChoiceExists` | rs/maglev/src/maglev_table.rs:42-52 | when rows miss at most one slot each, and the row of the last turn none, the backend whose turn it is still finds an empty slot in its row |
| `Greedy.FillIsGreedy` | rs/maglev/src/maglev_table.rs:39-54 | the slots claimed are those of the greedy rule, in that order, and each carries its backend |
| `Greedy.PreferredWasClaimed` | rs/maglev/src/maglev_table.rs:47-52 | a slot that its backend prefers to the one it claims was claimed at an earlier turn |
| `Greedy.GreedyOrderIsUnique` | rs/maglev/src/maglev_table.rs:42-54 | rows and turn order admit only one greedy order |
| `Greedy.TableIsDetermined` | rs/maglev/src/maglev_table.rs:39-55 | any greedy order of all slots describes the finished table |
| `Greedy.TableIsFull` | rs/maglev/src/maglev_table.rs:39-55 | every slot of the finished table holds an index below the number of backends, and with at most 65535 of them every slot was claimed (`Greedy.FullHouseIff` says when for 65536) |
| `Greedy.FirstSlot` | rs/maglev/src/maglev_table.rs:42-52 | backend 0 owns the first slot of its row from the first turn on |
| `Greedy.ExactBalance` | rs/maglev/src/maglev_table.rs:42-54 | backend i owns floor(m / n) slots, and one more exactly if i < m mod n, also for the largest number of backends admitted |
| `Greedy.NearlyEqual` | rs/maglev/src/maglev_table.rs:42-54 | at every turn any two backends differ by at most one slot, backend 65535 in the finished table |
| `Greedy.FullHouseIff` | rs/maglev/src/maglev_table.rs:22-52 | with 65536 backends the mark of the last is the empty mark; the table is the greedy one, and every slot is claimed, if and only if after 65535 turns the first empty slots in the rows of backends 65535 and 0 are different |
| `MaglevTables.EqualSeedsCollide` | rs/maglev/src/maglev_table.rs:22-52 | so with equal hashes for backends 0 and 65535 the table is never the greedy one, and some slot is never claimed |
| `MaglevTables.FullHouseHappens` | rs/maglev/src/maglev_table.rs:22-52 | and there are hashes for which it is |
| `MaglevTables.ExactRowsFill` | rs/maglev/src/maglev_table.rs:25-52 | the rows of any admitted list of backends last for all 65537 turns |
| `MaglevTables.ExactTable` | rs/maglev/src/maglev_table.rs:20-56 | for all admitted backend lists rows are permutations, every turn finds its slot within its row, every backend gets its exact share, and the fill is greedy (for 65536 backends see `Greedy.FullHouseIff`) |
| `MaglevPrograms.BuildRow` | rs/maglev/src/maglev_table.rs:26-36 | the walk fills the row with (xx + j * (fnv % 65536 + 1)) % 65537 for the two hashes |
| `MaglevPrograms.ClaimNext` | rs/maglev/src/maglev_table.rs:47-52 | skipping taken entries from the backend's counter claims the slot that scanning from the start of its row would |
| `MaglevPrograms.FillAll` | rs/maglev/src/maglev_table.rs:39-54 | the loop with its break performs exactly 65537 turns |
| `MaglevPrograms.BuiltFromHashes` | rs/maglev/src/maglev_table.rs:25-55 | the finished table is the greedy one for the rows (xx + j * (fnv % 65536 + 1)) % 65537 of the backends' two hashes, and slot xx % 65537 of backend 0 is its own |
| `MaglevPrograms.Build` | rs/maglev/src/maglev_table.rs:20-56 | ends for every admitted number of backends with the greedy table of the rows that the hashes describe, all indices below n, and backend 0 in the slot that its offset hash names |
| `MaglevRows.WrapIsExactIff` | apec-demo/rs/maglev/src/table.rs:78-80 | the wrapping row equals the exact one on all 65537 entries if and only if off + 65536 * skip < 2^32 |
| `MaglevRows.WrappedOntoIff` | apec-demo/rs/maglev/src/table.rs:73-80 | followed far enough, a wrapping row reaches every slot if and only if its skip is not 65536 |
| `MaglevRows.RowRepeats` | apec-demo/rs/maglev/src/table.rs:80-90 | the row repeats when its 32-bit index does, so that unbounded indices lose nothing |
| `MaglevTables.PopulateEndsIff` | apec-demo/rs/maglev/src/table.rs:84-98 | some number of row entries lasts for all turns if and only if the backend of the last turn has a skip other than 65536 or its one missing slot was taken before; otherwise no number of entries does, and the loop never ends |
| `MaglevTables.SingleBackendIff` | apec-demo/rs/maglev/src/table.rs:78-98 | with one backend it ends if and only if its skip is not 65536 |
| `MaglevPrograms.ClaimComputed` | apec-demo/rs/maglev/src/table.rs:86-93 | the turn with computed entries claims the greedy choice |
| `MaglevPrograms.PopulatedFromHashes` | apec-demo/rs/maglev/src/table.rs:75-99 | a finished table is the greedy one for the rows (h0 % 65537 + j * (h1 % 65536 + 1)) % 65537, each sum and product mod 2^32, and slot h0 % 65537 of backend 0 is its own |
| `MaglevPrograms.Populate` | apec-demo/rs/maglev/src/table.rs:75-99 | wherever it ends, the table is the greedy one of the wrapping rows that the hashes describe, all indices below n, and backend 0 in the slot that its offset hash names |
| `MaglevTables.MatrixSufficesIff` | maglev/maglev.cpp:96-108 | the matrix form stays inside its rows if and only if the last backend is in bound or its missing slot was taken before |
| `MaglevPrograms.GeneratePermutations` | maglev/maglev.cpp:86-95 | the matrix holds the wrapping rows that the hashes describe |
| `MaglevPrograms.PopulateMatrix` | maglev/maglev.cpp:96-108 | the matrix form computes the greedy fill of its rows |
| `MaglevPrograms.Setup` | maglev/maglev.cpp:43-56 | permutations, then the fill, to the greedy table of the rows that the hashes describe |
| `MaglevPrograms.PopulateFormsAgree` | apec-demo/rs/maglev/src/table.rs:5-8 | where the matrix form is safe, the on-the-fly form ends with the same table, slot for slot |
| `MaglevWrap.WrappedTableIsExact` | apec-demo/rs/maglev/src/table.rs:73-80 | wrapping does not show in the table when the last row is in bound and the others up to their last entry |
| `MaglevWrap.WrappedTableIsExactIff` | apec-demo/rs/maglev/src/table.rs:73-99 | wherever the wrapping fill ends, its table is the exact one if and only if the turn before the last is not one of seed (65536, 65536) that finds only slots 0 and 1 left |
| `MaglevWrap.SwapHappens` | apec-demo/rs/maglev/src/table.rs:73-99 | there are seeds for which all forms end with a table that differs from the exact one |
| `Crc.StepLinear` | apec-demo/rs/maglev/src/table.rs:120 | one step of the reflected division is linear for exclusive or |
| `Crc.StepSubtracts` | apec-demo/rs/maglev/src/table.rs:120 | a step halves the register, and subtracts 0x82F63B78 if a 1 fell out |
| `Crc.OneBit` | apec-demo/rs/maglev/src/table.rs:104-111 | the checksum of a word with the single bit i is 1 after 32 - i steps |
| `Crc.DivideAdds` | apec-demo/rs/maglev/src/table.rs:104-111 | checksums of words add up, so that single bits determine them all |
| `Crc.BuildTable` | apec-demo/rs/maglev/src/table.rs:113-127 | table entry i is i after eight steps |
| `Crc.ByteStep` | apec-demo/rs/maglev/src/table.rs:107-109 | one table lookup and shift is eight steps |
| `Crc.Crc32c` | apec-demo/rs/maglev/src/table.rs:104-111 | the table-driven checksum is the bit-by-bit reflected division by 0x82F63B78 over the 32 input bits, for every data and init |
| `Crc.CrcIsInjective` | apec-demo/rs/maglev/src/table.rs:104-111 | different words have different checksums |
| `Cache.BackendIsTable` | apec-demo/rs/maglev/src/table.rs:55-64 | a hash below 65537 gets its own slot of the table, and the answers repeat with period 65537 |
| `Cache.BucketIsCrc` | apec-demo/rs/maglev/src/table.rs:51 | the bucket is the CRC of the hash mod 256 |
| `Cache.PickIsOffer` | apec-demo/rs/maglev/src/table.rs:50-70 | one pick answers as the table does and turns the bucket's queue of keys into that of the reference queue of four |
| `Cache.RunIsFifo` | apec-demo/rs/maglev/src/table.rs:50-70 | in every reachable state a bucket holds exactly the last min(4, misses) keys that missed in it, in a prefix of different keys of its own |
| `Cache.PickIsTransparent` | apec-demo/rs/maglev/src/table.rs:48-70 | over every run the answer is `hash_table[hash % 65537]` |
| `Cache.KeySurvives` | apec-demo/rs/maglev/src/table.rs:64-69 | a key stays cached until four further misses in its bucket |
| `Cache.KeyIsEvicted` | apec-demo/rs/maglev/src/table.rs:64-69 | after four it is gone, unless it missed again |
| `CachePrograms.MaglevTable.constructor` | apec-demo/rs/maglev/src/table.rs:38-46 | a new cache over the greedy table of the rows that the hashes describe |
| `CachePrograms.MaglevTable.Pick` | apec-demo/rs/maglev/src/table.rs:50-70 | the in-place pick always returns the table's answer and extends the run |
| `Cache.Packed` | maglev/maglev.cpp:63-65 | the packed word gives back flag 1, value and key |
| `Cache.SetLast` | maglev/maglev.cpp:66-78 | storing the last position in the first flag leaves its key and value |
| `Cache.PicksAgree` | maglev/maglev.cpp:58-80 | one pick of the C++ bookkeeping returns what the Rust one does and keeps the states related |
| `Cache.RunsAgree` | maglev/maglev.cpp:58-80 | over every sequence of hashes the two forms return the same backends |
| `CachePrograms.CppTable.Pick` | maglev/maglev.cpp:58-80 | the in-place C++ pick, both stores of an insertion included |
| `Checksum.Fold` | rs/maglev/src/checksum.rs:2-7 | the carry loop ends with the residue mod 65535 that is 0 only for 0 |
| `Checksum.FoldIsResidue` | rs/maglev/src/checksum.rs:2-7 | fold keeps the residue mod 65535, and is zero only for zero |
| `Checksum.SumWords` | rs/maglev/src/checksum.rs:10-20 | the sum of big-endian words, a last odd byte in the high half, for all inputs whose sum fits in 32 bits |
| `Checksum.SumFits` | rs/maglev/src/checksum.rs:10-20 | among them are all inputs of up to 131074 bytes |
| `Checksum.PairSum` | rs/maglev/src/checksum.rs:13-15 | two bytes are one big-endian word |
| `Checksum.OddPadding` | rs/maglev/src/checksum.rs:16-18 | a last odd byte counts as if a zero followed it (RFC 1071) |
| `Checksum.SumBoundIsTight` | rs/maglev/src/checksum.rs:10-20 | all ones reach 2^32 - 1 at 131074 bytes, and any further nonzero byte overflows |
| `Checksum.HeaderSumSplits` | rs/maglev/src/checksum.rs:22-29 | the header sum leaves out exactly bytes 10 and 11 |
| `Checksum.HeaderSumOfBytes` | rs/maglev/src/checksum.rs:22-29 | for headers of any length the whole words are summed, but for bytes 10 and 11 |
| `Checksum.Ipv4HeaderChecksum` | rs/maglev/src/checksum.rs:22-31 | the complemented fold of the words of the header but word 5, for all headers whose sum fits in 32 bits |
| `Checksum.HeaderSumFits` | rs/maglev/src/checksum.rs:22-31 | among them are all headers of up to 131074 bytes |
| `Checksum.ComputeL4Checksum` | rs/maglev/src/checksum.rs:33-39 | the transport checksum with its pseudo-header, for all segments whose sum fits in 32 bits |
| `Checksum.L4ChecksumIsOfBytes` | rs/maglev/src/checksum.rs:33-39 | that is the checksum of the 12 bytes of the pseudo-header (RFC 768) followed by the segment |
| `Checksum.L4SumFits` | rs/maglev/src/checksum.rs:33-39 | among them are all segments of up to 131060 bytes |
| `Checksum.UpdateIsExact` | rs/maglev/src/checksum.rs:41-45 | two incremental updates of the checksum of a sum larger than the old address give bit for bit the checksum of the new sum |
| `Checksum.UdpUpdateIsExact` | rs/maglev/src/checksum.rs:86-90 | the same for UDP, where a computed 0 is sent as 0xffff |
| `Rewrite.RewriteEffect` | rs/maglev/src/checksum.rs:47-98 | a successful rewrite changes the destination address and the two checksum fields, and no other byte |
| `Rewrite.RewriteIsRecomputation` | rs/maglev/src/checksum.rs:47-98 | a frame whose checksums equal the full recomputation can always be rewritten, and both equal the full recomputation afterwards, with options, odd lengths, UDP zeros, and padding behind the segment |
| `Rewrite.SucceedsIff` | rs/maglev/src/checksum.rs:47-98 | when the rewrite succeeds, in terms of the bytes of the frame |
| `Rewrite.ChangesOnly` | rs/maglev/src/checksum.rs:62-98 | a successful rewrite puts the address into bytes 16 to 19 of the header, and else changes only bytes 10 and 11 of it, and bytes 16 and 17 of a TCP or 6 and 7 of a UDP header |
| `Rewrite.HeaderBytesStayRight` | rs/maglev/src/checksum.rs:62-67 | if bytes 10 and 11 are the checksum of the header's other bytes, they are so afterwards |
| `Rewrite.TransportBytesStayRight` | rs/maglev/src/checksum.rs:69-92 | if bytes 16 and 17 of a TCP header, or 6 and 7 of a UDP header, are the checksum of the segment with these bytes zeroed, they are so afterwards, a computed UDP 0 as 0xffff |
| `Rewrite.NoChecksumStays` | rs/maglev/src/checksum.rs:84-91 | a UDP checksum of 0 stays 0, and no other becomes 0 |
| `Rewrite.RewritesCompose` | rs/maglev/src/checksum.rs:47-98 | on such frames rewriting to b and then c is rewriting to c |
| `Rewrite.RewriteRoundTrip` | rs/maglev/src/checksum.rs:47-98 | on such frames rewriting there and back restores every byte |
| `Rewrite.RewriteKeepsDefect` | rs/maglev/src/checksum.rs:65-67 | for any frame a successful rewrite keeps header checksum plus header sum mod 65535 |
| `Rewrite.RewriteKeepsL4Defect` | rs/maglev/src/checksum.rs:70-92 | the same for the transport checksum, UDP without checksum excepted |
| `Rewrite.FailedRewrite` | rs/maglev/src/checksum.rs:47-84 | a failed rewrite leaves the frame unchanged if and only if the header is missing or its checksum does not move, and has otherwise left the new header checksum |
| `Rewrite.LateFailure` | rs/maglev/src/checksum.rs:65-82 | a failure behind the header leaves a correct header checksum correct if and only if the two addresses are congruent mod 65535, and then changes nothing |
| `Rewrite.RewriteDaddr` | rs/maglev/src/checksum.rs:47-98 | the in-place program, failures included: none before line 56 writes, later ones have written the header checksum |
| `Fnv.Fnv1a64` | rs/maglev/src/hash.rs:3-9 | the loop is the byte-wise hash |
| `Fnv.HashIsFnv1a` | rs/maglev/src/hash.rs:3-9 | the hash starts at 0xcbf29ce484222325, and each further byte is added by exclusive or before the multiplication by 0x100000001b3 mod 2^64 |
| `Fnv.OneByteNeverCollides` | rs/maglev/src/hash.rs:3-9 | inputs of one length that differ in one byte have different hashes |
| `Flow.KeyRoundTrip` | rs/maglev/src/five_tuple.rs:42-50 | the 13 key bytes determine the five-tuple |
| `Flow.KeyInBytes` | rs/maglev/src/five_tuple.rs:42-55 | the 13 bytes that are hashed, each as a function of the five-tuple |
| `Flow.ToBytes` | rs/maglev/src/five_tuple.rs:42-50 | the array holds the little-endian fields one after the other |
| `Flow.ProtocolChangesHash` | rs/maglev/src/five_tuple.rs:53-55 | flows that differ in the protocol alone never share a hash |
| `Flow.ParserReadsBytes` | rs/maglev/src/five_tuple.rs:22-39 | which frames the parser accepts, and from which bytes it reads each field |
| `Flow.MetaReadsBytes` | rs/maglev/src/flow_meta.rs:22-40 | which frames have metadata, and from which bytes each field is read |
| `Flow.AcceptedInBytes` | rs/maglev/bpf/flow_prefix.bpf.c:39-61 | which frames the filter takes, byte by byte |
| `Flow.PrefixInBytes` | rs/maglev/bpf/flow_prefix.bpf.c:63-90 | the 16 bytes in front of an accepted frame are 0xa5, the frame's addresses, ports and protocol as they lie there, and two zeros |
| `Flow.MetaAgreesWithParser` | rs/maglev/bpf/flow_prefix.bpf.c:63-90 | the metadata put in front of an accepted frame reads back as exactly what the software parser finds in the frame |
| `Flow.AcceptedIff` | rs/maglev/bpf/flow_prefix.bpf.c:39-61 | the filter takes exactly the frames that the software parser accepts and that are IPv4 with a full header, unfragmented and addressed to the virtual address |
| `Flow.Context.FlowPrefix` | rs/maglev/bpf/flow_prefix.bpf.c:33-92 | every packet passes; it leaves prefixed exactly when accepted and there is room, and untouched otherwise |
| `Receiver.LookupIsTable` | rs/maglev/src/maglev_table.rs:63-66 | a hash below 65537 gets its own slot of the table, and the answers repeat with period 65537 |
| `Receiver.RunCounts` | rs/maglev/src/receiver.rs:86-115 | for any stream each counter is the number of frames that it stands for: without metadata, parsed, parsed to another tuple than the metadata says, not parsed, not rewritten, and for each backend those that its flow hash selects |
| `Receiver.RunIsConserved` | rs/maglev/src/receiver.rs:86-115 | for any stream total = no_meta + verified + unparsed, the per-backend counts sum to total - no_meta, and mismatch is at most verified |
| `Receiver.CleanStreamAgrees` | rs/maglev/src/receiver.rs:88-115 | streams of prefixer outputs and frames not starting with 0xa5 end with mismatch = unparsed = 0, and as many failed rewrites as there are prefixed frames with a cut-off transport checksum whose backend is not the virtual address |
| `Receiver.PrefixedRewriteFails` | rs/maglev/src/receiver.rs:111-115 | the rewrite of a prefixed frame fails exactly when the address changes and the transport checksum is cut off |
| `Receiver.PrefixedFrameIsDelivered` | rs/maglev/src/receiver.rs:95-115 | a correct accepted frame is rewritten to a correct frame for the backend of its flow |
| `Receiver.Receiver.Process` | rs/maglev/src/receiver.rs:86-115 | the loop body: counters, backend, comparison and rewritten copy |
| `Receiver.Receiver.Run` | rs/maglev/src/receiver.rs:63-120 | the counters after a whole stream, what each of them counts, and that they are conserved |
| `Receiver.Receiver.constructor` | rs/maglev/src/receiver.rs:26-33 | the table is the greedy one of the rows that the backends' hashes describe |

## Left out

- MaglevPrograms.Populate: its precondition is that the fill ends, which the program itself does not demand of its callers; for the remaining seeds the program loops for ever, as `MaglevTables.PopulateEndsIff` shows, or stops when its counter overflows in a build that checks for that. It asserts at most 65535 backends, as the program does.
- MaglevPrograms.PopulateMatrix: its precondition is that no read leaves the matrix; what the C++ program reads beyond it is not defined. More than 65535 backends, whose indices the C++ table would truncate, are not modelled.
- MaglevPrograms.Build: takes the two hashes of each backend's name, XxHash64 for the offset first and FNV-1a for the skip second; XxHash64 and the name's bytes are not part of this model.
- Greedy.NearlyEqual: says nothing of backend 65535 of 65536 before the last turn: its mark is the empty mark, so the table does not tell its slot from the empty ones.
- Lpm6.Lpm6.Add: the standard library's stable sort enters through its promise; `Lpm6.StableSortIsUnique` shows that the promise determines the result.
- Checksum.SumWords: inputs on which the 32-bit sum of the program overflows are not modelled, here and in the two checksums.
- Rewrite.RewriteDaddr: the frame is bounded by memory only; the overflow of offsets in the machine's address width is not modelled.
- Receiver.Receiver.Process: counters are unbounded, where the program's are 64 bits wide; socket, clock and printing are left out.
- Flow.ToBytes: native byte order is taken to be little-endian.
- Flow.Context.FlowPrefix: the pass-through build and the driver's own limits on the headroom are left out; the bytes that the driver exposes are a parameter.
- CachePrograms.CppTable.Pick: the count of used entries, which nothing reads, is left out, and the bucket function of the hash library is the CRC of the Rust form.
- jhash and the derivation of backend seeds from addresses: the table is proved for all seeds.
- The access-control and address-translation functions, MAC rewriting, packet sockets, DPDK set-up and the user interface are not part of this model: a first-match scan over fixed rules, an index into a pool, constant header stores, and input and output.
- The measured bound on moved flows when a backend is removed: no general bound follows from the code.
