# Verified core of XMHF: heap, big integers, PAL memory, qsort and page un-relocation

A Dafny model of the parts of XMHF and its hypapps that carry state or arithmetic:

- the TLSF heap allocator of TrustVisor (`Tlsf*`), on a pool of memory words with headers, free lists and two
  levels of bitmaps;
- the multiple-precision integers of libtommath (`Mp*`, with `Primes` and `PrimeTable`), on a class of digits,
  digit count and sign: addition to division, four multipliers, Montgomery, Barrett and 2k reduction, modular
  exponentiation, inversion, square root, primality and the two text and byte formats;
- TrustVisor's page lending (`TvPages`, `TvOwnership`, `TvGiveBack`, `TvReturnable`, `TvRuns`, `TvSafety`,
  `TvLent`, `TvReturnPage`): registering, sharing with, leaving and unregistering PALs (pieces of application
  logic) as a state machine, and the same as loops that update tables in place (`TvMonitor`);
- a PAL call from marshalling to return (`TvSpace`, `TvMessage`, `TvMarshall`, `TvCall`);
- `qsort` on memory (`QsortOrder`, `QsortBytes`, `Qsort`);
- Lockdown's un-relocation of a page of a PE image (`Pe*`).

Digits have 28 or 60 bits, words of the heap 4 or 8 bytes; both are left open, so every result holds for both
builds. Integers are unbounded in Dafny, so truncation, wrap-around and the bounds of accumulators are written
out. A halt of the hypervisor is the value `None`, or a flag that is set. Walks through the guest's page
tables, the contents of memory before the first write, what a PAL does while it runs and whether a later step
of a registration fails are parameters.

Two conventions recur. `Trim` says that an integer has no leading zero digits and no negative zero; `ClearAbove`
says that the digits at and above the digit count are zero, which some routines rely on. A run of modular
exponentiation *strays* when it reaches a digit that nothing has written (see Findings); the model stops there
and says so in an extra result `strayed`.

`dafny verify dfyconfig.toml` checks everything.

## Model

| member | source | states |
|---|---|---|
| `TlsfBits.FlsGeneric` | hypapps/trustvisor/src/include/tlsfbits.h:130-142 | The halving search returns one more than the index of the highest set bit of any 32-bit word, with every shift truncated to the word; 0 for 0. |
| `TlsfBits.FlsSizet` | hypapps/trustvisor/src/include/tlsfbits.h:159-173 | The same for a 64-bit size, through two 32-bit halves. |
| `TlsfMapping.LargeClass` | hypapps/trustvisor/src/tlsf.c:334-351 | A size from the small-block limit on is filed under its highest bit and the five bits below: the class is the unique one whose range holds the size. |
| `TlsfMapping.MappingInsertInRange` | hypapps/trustvisor/src/tlsf.c:334-351 | The class of a size lies in the two-level table if and only if the size is below block_size_max. |
| `TlsfMapping.LargestAcceptedPoolIsOutOfRange` | hypapps/trustvisor/src/tlsf.c:763-831 | The first block of a pool of exactly block_size_max bytes, which tlsf_create accepts, has a class one row past the table. |
| `TlsfMapping.RoundUpLimit` | hypapps/trustvisor/src/tlsf.c:354-362 | Rounding a request up for the search stays below block_size_max if and only if the request is at most block_size_max minus a 64th of it. |
| `TlsfMapping.GoodFit` | hypapps/trustvisor/src/tlsf.c:354-362 | Every block filed at or above the class a request is searched from is large enough for the request, without any comparison of sizes. |
| `TlsfFreeList.SearchSuitableBlock` | hypapps/trustvisor/src/tlsf.c:364-394 | Finds a block if and only if some free list at or above the class is not empty, and then one from the lowest such class. |
| `TlsfFreeList.RemoveFreeBlock` | hypapps/trustvisor/src/tlsf.c:397-423 | Takes the block out of its list and keeps every list, both bitmap levels, all headers and all live payloads in order. |
| `TlsfFreeList.InsertFreeBlock` | hypapps/trustvisor/src/tlsf.c:426-444 | Puts the block at the head of the list of its class, and keeps the same. |
| `TlsfBlocks.BlockSplit` | hypapps/trustvisor/src/tlsf.c:468-487 | The block becomes two that tile its extent exactly; the payload of the first is untouched. |
| `TlsfBlocks.BlockAbsorb` | hypapps/trustvisor/src/tlsf.c:490-497 | A block takes over its successor: one block that tiles both extents. |
| `TlsfBlocks.BlockMergePrev` | hypapps/trustvisor/src/tlsf.c:500-512 | Merges with the physical predecessor exactly when the flag says it is free: the predecessor leaves its list and takes over the extent of the block. |
| `TlsfBlocks.BlockMergeNext` | hypapps/trustvisor/src/tlsf.c:515-528 | Merges with the successor exactly when that is free: the successor leaves its list and the block takes over its extent. |
| `TlsfTrim.BlockTrimFree` | hypapps/trustvisor/src/tlsf.c:531-541 | Cuts a free block to the requested size exactly when the rest can hold a block, and files the rest. |
| `TlsfTrim.BlockTrimUsed` | hypapps/trustvisor/src/tlsf.c:544-556 | The same for a used block, whose cut-off tail is merged with a free successor before it is filed. |
| `TlsfTrim.BlockTrimFreeLeading` | hypapps/trustvisor/src/tlsf.c:558-572 | Splits the leading gap off an aligned allocation and files it. |
| `Tlsf.FindFit` | hypapps/trustvisor/src/tlsf.c:574-592 | The located block is at least as large as the request (the assertion in block_locate_free never fires), and none is found exactly when no list at or above the searched class holds one. |
| `Tlsf.Malloc` | hypapps/trustvisor/src/tlsf.c:839-845 | Returns null exactly for a zero or oversized request or when no block is available. Otherwise the pointer is to a free block of the lowest class that will do, cut to the request: what can stand alone is a free block of its own and no other block changes. Every live payload keeps its bytes and the heap invariant holds. |
| `Tlsf.Free` | hypapps/trustvisor/src/tlsf.c:901-913 | Freeing a live pointer ends just that allocation, keeps every other live payload and the heap invariant, with full coalescing; freeing null does nothing. |
| `TlsfAlign.Memalign` | hypapps/trustvisor/src/tlsf.c:847-899 | The result is aligned as asked, at least as large as asked and less than four words larger, and the leading gap can always be split off; null exactly when no block is available. |
| `TlsfRealloc.Realloc` | hypapps/trustvisor/src/tlsf.c:928-982 | Keeps the first min(old block, new size) bytes wherever the block ends up, which is less than four words larger than asked; on failure leaves the old block untouched; null means allocate and size zero means free. |
| `TlsfRealloc.ReallocLive` | hypapps/trustvisor/src/tlsf.c:928-982 | Stays in place exactly when the block with its free successor is large enough; fails exactly when it is not and no available block is. For any size that fits in place, and for any within the search otherwise. |
| `TlsfCopy.MemCopy` | hypapps/trustvisor/src/tlsf.c:959-965 | Copies n bytes between disjoint payloads, byte for byte, with the memory held as words. |
| `TlsfRuns.Create` | hypapps/trustvisor/src/tlsf.c:763-831 | Refuses exactly the pools that are too small or too large, and else makes a pool at rest with one free block of all the bytes. |
| `TlsfRuns.CheckHeap` | hypapps/trustvisor/src/tlsf.c:637-710 | Executes the allocator's own integrity check, physical walk and list walk, and finds nothing to report in any pool at rest. |
| `TlsfRuns.ListsHoldFreeBlocks` | hypapps/trustvisor/src/tlsf.c:655-710 | In a pool at rest the list of a class holds exactly the free blocks that mapping_insert files there, each of them once. |
| `TlsfRuns.WalkConserves` | hypapps/trustvisor/src/tlsf.c:720-735 | Headers and payloads on the physical walk add up to the whole pool, whatever has been allocated, freed or merged. |
| `TlsfRuns.LivePayloadsDisjoint` | hypapps/trustvisor/src/tlsf.c:839-845 | No word of a live payload belongs to another live payload, and all lie inside the pool. |
| `TlsfRuns.FullyCoalesced` | hypapps/trustvisor/src/tlsf.c:901-913 | With nothing live the pool is one free block of its initial size. |
| `TlsfRuns.LiveDetermines` | hypapps/trustvisor/src/tlsf.c:839-913 | The live blocks determine the layout: two pools at rest with the same live blocks have the same free blocks, whatever was requested on the way. |
| `TlsfRuns.Run` | hypapps/trustvisor/src/tlsf.c:655-982 | After any sequence of malloc, memalign, realloc, free and writes by the callers, the heap check reports nothing, and if nothing is live the pool is one free block again. |
| `MpInts.Grow` | xmhf/third-party/libtommath/bn_mp_grow.c:19-52 | Makes room for at least the size asked for, in multiples of MP_PREC, and changes no digit. |
| `MpInts.Clamp` | xmhf/third-party/libtommath/bn_mp_clamp.c:25-39 | Drops leading zero digits and the sign of a zero; the value stays. |
| `MpInts.Copy` | xmhf/third-party/libtommath/bn_mp_copy.c:19-63 | The copy has the same value, digit count and sign, also for a source that is the destination. |
| `MpInts.CmpMag` | xmhf/third-party/libtommath/bn_mp_cmp_mag.c:19-50 | Compares by digit count first, so it compares magnitudes for trimmed numbers, and states what it answers for others. |
| `MpInts.Cmp` | xmhf/third-party/libtommath/bn_mp_cmp.c:19-38 | Compares two trimmed numbers by value. |
| `MpInts.CmpD` | xmhf/third-party/libtommath/bn_mp_cmp_d.c:19-39 | Compares with a digit correctly if and only if the number is not zero, or its digit 0 is clear, or below the digit compared with. |
| `MpInts.Lshd` | xmhf/third-party/libtommath/bn_mp_lshd.c:19-62 | Multiplies by a power of the base; a shifted zero keeps leading zero digits. |
| `MpInts.Rshd` | xmhf/third-party/libtommath/bn_mp_rshd.c:19-67 | Divides the magnitude by a power of the base, rounding down. |
| `MpInts.CountBits` | xmhf/third-party/libtommath/bn_mp_count_bits.c:19-40 | The number of bits: the value lies between the two powers of two around it. |
| `MpAddSub.SMpAdd` | xmhf/third-party/libtommath/bn_s_mp_add.c:19-104 | The sum of the magnitudes, with either operand as destination. |
| `MpAddSub.SMpSub` | xmhf/third-party/libtommath/bn_s_mp_sub.c:19-83 | The difference of the magnitudes, modulo the power of the base given by the digits when it would be negative; the borrow comes from the top bit of the word. |
| `MpAddSub.Add` | xmhf/third-party/libtommath/bn_mp_add.c:19-47 | The signed sum, for trimmed operands and for operands of one sign; otherwise the exact amount by which it is off. |
| `MpAddSub.Sub` | xmhf/third-party/libtommath/bn_mp_sub.c:19-53 | The signed difference if the signs differ or the operands are trimmed; for operands of one sign the exact error in every other case. |
| `MpScale.MulD` | xmhf/third-party/libtommath/bn_mp_mul_d.c:19-74 | The product with a digit; no column overflows the word. |
| `MpShift.Mul2d` | xmhf/third-party/libtommath/bn_mp_mul_2d.c:19-80 | The product with a power of two. |
| `MpShift.Div2d` | xmhf/third-party/libtommath/bn_mp_div_2d.c:19-92 | Quotient and remainder by a power of two, rounding towards zero, also when the destination is the operand. |
| `MpShift.Mod2d` | xmhf/third-party/libtommath/bn_mp_mod_2d.c:19-50 | The remainder by a power of two, with the sign of the operand. |
| `MpShift.Mul2` | xmhf/third-party/libtommath/bn_mp_mul_2.c:19-77 | Twice the number. |
| `MpShift.Div2` | xmhf/third-party/libtommath/bn_mp_div_2.c:19-63 | Half the magnitude, rounded down. |
| `MpDivDigit.Div3` | xmhf/third-party/libtommath/bn_mp_div_3.c:19-73 | Quotient and remainder by three, by a reciprocal that never overshoots and a correction. |
| `MpDivDigit.DivD` | xmhf/third-party/libtommath/bn_mp_div_d.c:37-109 | Quotient and remainder by a digit in all three branches; fails exactly for zero. |
| `MpDigitOps.AddD` | xmhf/third-party/libtommath/bn_mp_add_d.c:19-106 | The signed sum with a digit, across zero and with either sign, if and only if a is not a zero with something in digit 0; for such a zero, what comes out instead. |
| `MpDigitOps.OneTooMany` | xmhf/third-party/libtommath/bn_mp_add_d.c:50-106 | Such an input: a trimmed zero to which 1 is added, giving 2. |
| `MpDigitOps.SubD` | xmhf/third-party/libtommath/bn_mp_sub_d.c:19-87 | The signed difference with a digit, for every trimmed number. |
| `MpEstimate.AcceptedIsClose` | xmhf/third-party/libtommath/bn_mp_div.c:204-227 | A quotient digit that passes the three-digit comparison is at most one too large, although the divisor is only normalised to a quarter of the base. |
| `MpEstimate.RejectedIsHigh` | xmhf/third-party/libtommath/bn_mp_div.c:204-227 | A quotient digit that the comparison rejects was too large. |
| `MpDiv.QuotRemUnique` | xmhf/third-party/libtommath/bn_mp_div.c:103-284 | Quotient and remainder are the only pair with a = q b + r, |r| < |b| and r of the sign of a. |
| `MpDiv.Div` | xmhf/third-party/libtommath/bn_mp_div.c:103-284 | The quotient and the remainder of any two trimmed numbers, either left out and either sharing storage with an operand; fails exactly for b = 0. One add-back is enough. |
| `MpColumns.ColumnsCong` | xmhf/third-party/libtommath/bn_fast_s_mp_mul_digs.c:34-102 | The columns below n determine the product modulo the n-th power of the base. |
| `MpMulDigs.FastMulDigs` | xmhf/third-party/libtommath/bn_fast_s_mp_mul_digs.c:34-102 | The comba product: the low digits of the product, no column overflowing the double word. The digit above the ones computed is whatever the buffer held; all others above stay clear. |
| `MpMulDigs.SMulDigs` | xmhf/third-party/libtommath/bn_s_mp_mul_digs.c:22-85 | The same digits row by row; leaves no digit above the product when it does not use comba. |
| `MpMul.Karatsuba` | xmhf/third-party/libtommath/bn_mp_karatsuba_mul.c:47-162 | The product of the magnitudes by three recursive products of fewer digits. |
| `MpMul.Toom` | xmhf/third-party/libtommath/bn_mp_toom_mul.c:25-278 | With the five recursive products right, the product plus exactly the errors of the two additions in which a shifted zero is taken for the larger operand. |
| `MpMul.Mul` | xmhf/third-party/libtommath/bn_mp_mul.c:19-61 | The exact signed product in all four branches whenever Agrees holds, and, if the parts are right, only then. The mutual recursion ends. |
| `MpMul.PlainIsExact` | xmhf/third-party/libtommath/bn_mp_mul.c:19-61 | Operands of one sign, and operands below the Toom cutoff, are multiplied exactly. |
| `MpMul.ExactlyAgrees` | xmhf/third-party/libtommath/bn_mp_mul.c:19-61 | For a shorter operand of up to 1040 digits the product is right if and only if Agrees holds. |
| `MpMul.ToomCounterexample` | xmhf/third-party/libtommath/bn_mp_toom_mul.c:246-271 | For x = BASE^349 + 1, at the cutoff, the product of x and -x is wrong. |
| `MpMul.Sqr` | xmhf/third-party/libtommath/bn_mp_sqr.c:19-53 | The square of the magnitude, with no digit left above it. |
| `MpMontgomery.Setup` | xmhf/third-party/libtommath/bn_mp_montgomery_setup.c:19-54 | Fails exactly for an even digit 0, so for even n unless n is a zero, else gives rho with rho n = -1 modulo the base; each Newton step doubles the correct bits. |
| `MpMontgomery.FastReduce` | xmhf/third-party/libtommath/bn_fast_mp_montgomery_reduce.c:26-167 | For 0 <= x < n BASE^k the result is in [0, n) and times BASE^k congruent to x, no column overflowing in spite of the delayed carries. |
| `MpMontgomery.Reduce` | xmhf/third-party/libtommath/bn_mp_montgomery_reduce.c:19-113 | The same for the baseline form, for any number of digits, provided the digits above x are clear. |
| `MpMontgomery.ReduceFound` | xmhf/third-party/libtommath/bn_mp_montgomery_reduce.c:19-113 | The row-by-row form on any buffer: it reduces the number made up by all 2k + 1 digits, in use or not. |
| `MpMontgomery.ReducedUnique` | xmhf/third-party/libtommath/bn_fast_mp_montgomery_reduce.c:26-167 | There is only one such result, so both forms agree. |
| `MpMontgomery.CalcNormalization` | xmhf/third-party/libtommath/bn_mp_montgomery_calc_normalization.c:24-54 | For every b > 1 a number in [0, b] congruent to BASE^k; it is BASE^k modulo b if and only if b is not a power of two of several digits short of filling its top digit, and b itself for those. |
| `MpMontgomery.BaseStays` | xmhf/third-party/libtommath/bn_mp_montgomery_calc_normalization.c:24-54 | Such a modulus: b = BASE. |
| `MpMontgomery.TwoExpt` | xmhf/third-party/libtommath/bn_mp_2expt.c:23-43 | The power of two. |
| `MpMod.Mod` | xmhf/third-party/libtommath/bn_mp_mod.c:19-43 | The residue in [0, b) for b > 0, a residue in [b, 0) for b < 0; fails exactly for b = 0. |
| `MpMod.MulMod` | xmhf/third-party/libtommath/bn_mp_mulmod.c:19-35 | The residue of the product whenever mp_mul is exact, in [c, 0) for a negative modulus; fails exactly for zero. |
| `MpExptmod.BuildTable` | xmhf/third-party/libtommath/bn_mp_exptmod_fast.c:169-191 | Each table entry M[x] holds g^x in the form of the reduction; strays exactly when a pair of entries that is multiplied for the table is short. |
| `MpWindow.WindowsOnTheWay` | xmhf/third-party/libtommath/bn_mp_exptmod_fast.c:193-266 | The exponents of each pair that the window multiplies add up to a leading part of the exponent. |
| `MpWindow.LeadingZeros` | xmhf/third-party/libtommath/bn_mp_exptmod_fast.c:207-226 | The pairs depend on the exponent alone, not on the zeros read before its first bit. |
| `MpExptmod.ReadExponent` | xmhf/third-party/libtommath/bn_mp_exptmod_fast.c:193-266 | Mode, bit buffer and bit count always represent the part of the exponent consumed so far, for every window size; strays exactly when a pair of powers does that the windows of the exponent multiply. |
| `MpExptmod.FinishWindow` | xmhf/third-party/libtommath/bn_mp_exptmod_fast.c:268-291 | Bits left in the window at the end are worked off correctly; strays exactly when one of their products does. |
| `MpExptmod.ExptmodFast` | xmhf/third-party/libtommath/bn_mp_exptmod_fast.c:32-315 | y = g^x mod p for every odd p > 1 and x >= 0, if the run does not stray and mp_mul gets the first product right; else h^x for what it makes of g. Strays if and only if p has 256 digits or more and some pair of powers that the sliding window multiplies, a function of x alone, has short Montgomery forms. |
| `MpExptmod.ShortFormStrays` | xmhf/third-party/libtommath/bn_mp_exptmod_fast.c:169-191 | For a modulus of 256 digits or more, every exponent strays for g = 0 and for every g with a short form. |
| `MpExptmod.StrayAnswer` | xmhf/third-party/libtommath/bn_mp_exptmod_fast.c:32-315 | With g = 0 and x = 3 a non-zero stray digit reaches the answer: it is not 0^3 mod p. |
| `MpExptmod.CubeOfZero` | xmhf/third-party/libtommath/bn_mp_exptmod_fast.c:183-305 | That run: the zero product with the stray digit reduced, multiplied into the form of one, reduced, and taken out of form is not 0^3, unless that multiplication strays as well. |
| `MpRedux.StrayMatters` | xmhf/third-party/libtommath/bn_mp_montgomery_reduce.c:19-113 | Two different stray digits give two different residues. |
| `MpRedux.ReduceTwice` | xmhf/third-party/libtommath/bn_mp_montgomery_reduce.c:19-113 | Reducing one and the same product in two buffers that differ in the stray digit gives two different numbers. |
| `MpReduce2k.Reduce2k` | xmhf/third-party/libtommath/bn_mp_reduce_2k.c:19-55 | a mod n with the right factor; with the factor BASE cut to the digit 0, a mod (n + BASE) mod n. |
| `MpReduce2k.Reduce2kL` | xmhf/third-party/libtommath/bn_mp_reduce_2k_l.c:22-56 | a mod n. |
| `MpReduce2k.Setup2k` | xmhf/third-party/libtommath/bn_mp_reduce_2k_setup.c:19-42 | Digit 0 of 2^p - a. |
| `MpReduce2k.Setup2kL` | xmhf/third-party/libtommath/bn_mp_reduce_2k_setup_l.c:19-39 | 2^p - a. |
| `MpReduce2k.Is2k` | xmhf/third-party/libtommath/bn_mp_reduce_is_2k.c:19-46 | The bit scan answers yes exactly for one digit, or when 2^p - a is at most BASE. |
| `MpReduce2k.Is2kL` | xmhf/third-party/libtommath/bn_mp_reduce_is_2k_l.c:19-38 | Yes exactly for one digit, or when at least half of the digits are full of ones. |
| `MpReduce2k.DrIsModulus` | xmhf/third-party/libtommath/bn_mp_dr_is_modulus.c:19-37 | Yes exactly when all digits but the lowest are full of ones. |
| `MpExptDispatch.DiminishedIsLong` | xmhf/third-party/libtommath/bn_mp_exptmod.c:24-106 | A diminished radix modulus is of the long form, so the diminished radix reduction is never chosen. |
| `MpExptDispatch.NearPowerIsLong` | xmhf/third-party/libtommath/bn_mp_exptmod.c:24-106 | A modulus of three digits or more within BASE of a power of two is of the long form, so mp_reduce_2k only gets two digits. |
| `MpExptDispatch.Exptmod` | xmhf/third-party/libtommath/bn_mp_exptmod.c:24-106 | g^x mod p, through whichever routine and reduction the modulus gets: right for all g and x that do not stray if the modulus is Exact; for any other modulus BASE^2 comes out as 0, which is wrong; what survives of the result then is its residue modulo BASE. Strays exactly when Montgomery exponentiation does. |
| `MpExptDispatch.ExptmodLong` | xmhf/third-party/libtommath/bn_s_mp_exptmod.c:23-247 | The same sliding window with the long 2k reduction. |
| `MpExptDispatch.ExptmodBarrett` | xmhf/third-party/libtommath/bn_s_mp_exptmod.c:23-247 | The same with Barrett reduction; fails exactly for a zero modulus. |
| `MpExptDispatch.ExptmodTwoK` | xmhf/third-party/libtommath/bn_mp_exptmod_fast.c:32-315 | The same with the short 2k reduction, also where its factor is cut. |
| `MpExptDispatch.StrayExample` | xmhf/third-party/libtommath/bn_mp_exptmod_fast.c:169-191 | A 256-digit odd modulus, every other bit set, for which g = 2 strays with every exponent. |
| `MpExptDispatch.SteadyExample` | xmhf/third-party/libtommath/bn_mp_exptmod_fast.c:169-315 | Moduli of 256 digits or more for which 3^3 does not stray. |
| `MpHigh.FastMulHighDigs` | xmhf/third-party/libtommath/bn_fast_s_mp_mul_high_digs.c:27-93 | The digits from digs up of the product, with the columns below left out. |
| `MpHigh.SMulHighDigs` | xmhf/third-party/libtommath/bn_s_mp_mul_high_digs.c:21-76 | The same digits row by row. |
| `MpBarrett.Estimate` | xmhf/third-party/libtommath/bn_mp_reduce.c:22-95 | The quotient estimate from the high part of the product is at most k + 2 too small and never too large. |
| `MpBarrett.ReduceSetup` | xmhf/third-party/libtommath/bn_mp_reduce_setup.c:21-29 | mu = BASE^(2k) / b; fails exactly for b = 0. |
| `MpBarrett.Reduce` | xmhf/third-party/libtommath/bn_mp_reduce.c:22-95 | x mod m for every 0 <= x < m^2, although the low columns are never computed. |
| `MpInvmod.EuclidLoop` | xmhf/third-party/libtommath/bn_fast_mp_invmod.c:58-121 | The loop keeps B y = u and D y = v modulo b and the common divisors, ends with the greatest one, and follows the rounds of RoundU and RoundV. |
| `MpInvmod.FastInvmod` | xmhf/third-party/libtommath/bn_fast_mp_invmod.c:24-143 | For odd b and a mod b != 0 it ends, succeeds exactly when a and b are coprime, and then a c = 1 modulo b with c >= 0; for a < 0 it is a c = -1. |
| `MpInvmod.MultiplesNeverEnd` | xmhf/third-party/libtommath/bn_fast_mp_invmod.c:58-121 | For a multiple of b no number of rounds brings u to zero. |
| `Primes.Fermat` | xmhf/third-party/libtommath/bn_mp_prime_miller_rabin.c:25-98 | Fermat's little theorem, through the binomial theorem. |
| `Primes.RootsOfOne` | xmhf/third-party/libtommath/bn_mp_prime_miller_rabin.c:69-90 | One has only the square roots one and minus one modulo a prime. |
| `MpPrime.PrimeIsStrong` | xmhf/third-party/libtommath/bn_mp_prime_miller_rabin.c:25-98 | Every prime is a strong probable prime to every base it does not divide. |
| `MpPrime.CntLsb` | xmhf/third-party/libtommath/bn_mp_cnt_lsb.c:23-47 | The number of trailing zero bits. |
| `MpPrime.SqrMod` | xmhf/third-party/libtommath/bn_mp_sqrmod.c:19-36 | The residue of the square. |
| `MpPrime.MillerRabin` | xmhf/third-party/libtommath/bn_mp_prime_miller_rabin.c:25-98 | For a base prime to a, the answer is exactly whether a is a strong probable prime, if the exponentiation does not stray and a is Exact; fails exactly for a base up to one or a negative number; strays exactly when the exponentiation to the odd part of a - 1 does. |
| `MpPrime.IsDivisible` | xmhf/third-party/libtommath/bn_mp_prime_is_divisible.c:23-45 | Yes exactly when an entry of the table divides the number. |
| `MpPrime.IsPrime` | xmhf/third-party/libtommath/bn_mp_prime_is_prime.c:25-78 | Every prime is accepted unless a round strays; anything accepted is in the table, or has no small factor and is a strong probable prime to the first t bases; exact below 1620^2. Strays exactly when the number comes to a round whose exponentiation does. |
| `MpPrime.ExactBelow` | xmhf/third-party/libtommath/bn_mp_prime_is_prime.c:25-78 | Below 1620^2, trial division by the table leaves only primes. |
| `MpPrime.ZeroTurnsUp` | xmhf/third-party/libtommath/bn_mp_prime_miller_rabin.c:70-88 | For 9 and the base 3 the repeated squaring reaches zero before its last round. |
| `PrimeTable.TableIsPrimes` | xmhf/third-party/libtommath/bn_prime_tab.c:17-56 | The table has 256 entries, all of them prime. |
| `PrimeTable.TableIsComplete` | xmhf/third-party/libtommath/bn_prime_tab.c:17-56 | They ascend, and every prime up to 1619 is among them. |
| `MpSqrt.Sqrt` | xmhf/third-party/libtommath/bn_mp_sqrt.c:19-75 | The largest s with s^2 <= arg; fails exactly for a negative number. The loop ends, and never at one below or above. |
| `MpSqrt.RootUnique` | xmhf/third-party/libtommath/bn_mp_sqrt.c:19-75 | Only one number is such a root. |
| `MpSqrt.FirstGuess` | xmhf/third-party/libtommath/bn_mp_sqrt.c:43-57 | One step from any quotient of arg as first guess lands where the loop is sound: at the root or above it, and not at the root when arg = s^2 + 2 s, where the exit test would be off by one. |
| `MpRadix.ToRadix` | xmhf/third-party/libtommath/bn_mp_toradix.c:19-69 | The printed digits with sign, in every radix from 2 to 64; fails exactly for others. |
| `MpRadix.ReadRadix` | xmhf/third-party/libtommath/bn_mp_read_radix.c:19-80 | The number that the longest readable prefix denotes. |
| `MpRadix.RadixRoundTrip` | xmhf/third-party/libtommath/bn_mp_read_radix.c:19-80 | Reading back what was printed gives the number, in every radix and with either sign. |
| `MpBinary.UnsignedBinSize` | xmhf/third-party/libtommath/bn_mp_unsigned_bin_size.c:19-23 | Exactly the number of bytes written. |
| `MpBinary.ToUnsignedBin` | xmhf/third-party/libtommath/bn_mp_to_unsigned_bin.c:19-43 | The big-endian bytes of the magnitude. |
| `MpBinary.ReadUnsignedBin` | xmhf/third-party/libtommath/bn_mp_read_unsigned_bin.c:19-50 | The number the bytes denote. |
| `MpBinary.BinaryRoundTrip` | xmhf/third-party/libtommath/bn_mp_read_unsigned_bin.c:19-50 | Reading back what was written gives the number. |
| `MpBinary.BytesByPlace` | xmhf/third-party/libtommath/bn_mp_to_unsigned_bin.c:19-44 | The byte i places from the end has the weight 256^i. |
| `TvOwnership.LendPagesSeparate` | hypapps/trustvisor/src/pt.c:211-332 | Lending any number of pages of an exclusive section keeps every page reachable from one side only. |
| `TvOwnership.ReturnPagesSeparate` | hypapps/trustvisor/src/pt.c:345-409 | So does returning them. |
| `TvOwnership.LendPagesAgree` | hypapps/trustvisor/src/pt.c:211-332 | Lending any number of pages, wherever the section lies, keeps the tables of the PAL in agreement with what it was lent: just those pages mapped, each to a page of its own, nothing else reached. |
| `TvOwnership.ReturnPagesAgree` | hypapps/trustvisor/src/pt.c:345-409 | Every page of a lent section passes the readability test and is returned, and the tables agree with the rest. |
| `TvReturnable.GiveBackGives` | hypapps/trustvisor/src/scode.c:755-775 | Whenever the give-back loop gets through, for any PAL and any sections: every page of every section is the guest's again, 4096 zero bytes if the section is DATA, PARAM, STACK or SHARED and unchanged otherwise, and every other page is untouched. |
| `TvReturnable.GiveBackAll` | hypapps/trustvisor/src/scode.c:755-775 | For a PAL whose tables agree with its sections: unregistering does not halt, every page of every section is the guest's again and all zero if it was data, parameter, stack or shared memory, no other page changes, and the PAL keeps only its page tables. |
| `TvReturnable.GiveBackIff` | hypapps/trustvisor/src/scode.c:755-775 | For any tables and any sections, overlapping or not: unregistering gets through if and only if every page is mapped to a readable page, a writable one where it must be cleared, and no two to the same one. |
| `TvSafety.RunIsSafe` | hypapps/trustvisor/src/scode.c:422-793 | In every state that any run of register, share, PAL exit, unregister and writes reaches, no page is accessible from the guest and a PAL, or from two PALs. |
| `TvSafety.UnregisterGives` | hypapps/trustvisor/src/scode.c:710-793 | In any state, an unregistration that gets through removes the PAL, returns every page of its sections, 4096 zero bytes for DATA, PARAM, STACK and SHARED and unchanged otherwise, and changes no other page. |
| `TvSafety.UnregisterWorks` | hypapps/trustvisor/src/scode.c:710-793 | In every state of a run, it gets through for a PAL not registered over the return page. |
| `TvSafety.PalMemoryIsIsolated` | hypapps/trustvisor/src/scode.c:422-793 | No event but the PAL's own writes and its own unregistration changes a page it can reach. |
| `TvLent.LentPages` | hypapps/trustvisor/src/scode.c:422-708 | In every state of a run each page of a section is readable and executable but not writable for the PAL if it is CODE, readable and writable but not executable if it is DATA, PARAM, STACK or SHARED, and out of reach of the guest. |
| `TvLent.CodeNeverChanges` | hypapps/trustvisor/src/scode.c:422-793 | In every state of a run nothing but the unregistration of a PAL changes a page of its code, not even a write of its own. |
| `TvLent.RegisterLends` | hypapps/trustvisor/src/scode.c:422-708 | Registration, if it does not give up, gives the PAL all its sections, each page leading to the one the guest had there, and changes neither memory nor other PALs. |
| `TvLent.ShareLends` | hypapps/trustvisor/src/scode.c:1600-1664 | Sharing with room for all ranges makes each a section whose pages lead to those the guest had there. |
| `TvLent.ReleaseGives` | hypapps/trustvisor/src/scode.c:1580-1598 | A release drops just the SHARED sections at the end; their pages are the guest's again and its access to no other page changes. |
| `TvLent.ExitRestores` | hypapps/trustvisor/src/scode.c:1331-1420 | At any point of any run, the exit of a PAL registered without SHARED sections does not halt and leaves it just the sections of its registration; every shared page is the guest's again. |
| `TvSafety.ReleaseOk` | hypapps/trustvisor/src/scode.c:1580-1598 | Releasing the shared pages at PAL exit halts for no PAL but one registered with a SHARED section over the return page, and keeps the ownership invariant. |
| `TvReturnPage.UnregisterIff` | hypapps/trustvisor/src/scode.c:710-793 | In every reachable state, unregistering works if and only if no section lies over the return page, or the one that does needs no clearing, the PAL can read that page, and no other page of its sections leads there. |
| `TvReturnPage.MeasureIff` | hypapps/trustvisor/src/scode.c:153-244 | Measuring a PAL that is being registered gets through if and only if none of its sections lies over the return page, or the PAL can read that page. |
| `TvReturnPage.CodeComesBack` | hypapps/trustvisor/src/scode.c:422-793 | A run from the start: code over the return page, mapped to itself, is registered and unregistered. |
| `TvReturnPage.StackDoesNot` | hypapps/trustvisor/src/scode.c:422-793 | A run: a stack over the return page is registered, and unregistering it halts. |
| `TvReturnPage.CodeElsewhereHalts` | hypapps/trustvisor/src/scode.c:422-707 | A run: code over the return page, mapped elsewhere, halts when it is registered. |
| `TvReturnPage.CodeTwiceDoesNot` | hypapps/trustvisor/src/scode.c:422-793 | A run: code over the return page, another page of which is mapped there, is registered, and unregistering it halts. |
| `TvReturnPage.UnregisterHalts` | hypapps/trustvisor/src/scode.c:755-767 | A section to be cleared over the return page makes unregistering halt in any state. |
| `TvMonitor.Monitor.Lend` | hypapps/trustvisor/src/pt.c:211-332 | The loop over the pages of a section computes LendSection and stops where it says None. |
| `TvMonitor.Monitor.Return` | hypapps/trustvisor/src/pt.c:345-409 | The loop computes ReturnPages and stops where it says None. |
| `TvMonitor.Monitor.Clear` | hypapps/trustvisor/src/scode.c:757-767 | The loop computes ZeroPages and stops where it says None. |
| `TvMonitor.Monitor.ReadSections` | hypapps/trustvisor/src/scode.c:230-244 | The loop computes whether every page of every section can be read. |
| `TvMonitor.Monitor.Add` | hypapps/trustvisor/src/scode.c:422-707 | The loop over the sections, the return page and the measurement compute Register. |
| `TvMonitor.Monitor.Remove` | hypapps/trustvisor/src/scode.c:710-793 | The loop over the sections computes Unregister. |
| `TvMonitor.Monitor.Share` | hypapps/trustvisor/src/scode.c:1601-1660 | The loop over the ranges computes ShareRanges, with the release of everything shared when there is no room. |
| `TvMonitor.Monitor.ReleaseShared` | hypapps/trustvisor/src/scode.c:1580-1598 | The loop from the last section down computes Release. |
| `TvMarshall.Marshall` | hypapps/trustvisor/src/scode.c:795-1067 | Succeeds exactly when every record and every stack word can be written; then the parameter pages hold the message and registers and stack hold the arguments of the 32- or 64-bit calling convention. Otherwise names the parameter it stopped at; the registers are changed for those handed over before it and for no other. |
| `TvMarshall.ArgsByName` | hypapps/trustvisor/src/scode.c:845-852 | The parameters are those in rdi, rsi, rdx, rcx, r8, r9 and the words above the return address for a 64-bit caller, and those in the words there for a 32-bit one. |
| `TvMessage.MessageByName` | hypapps/trustvisor/src/scode.c:820-895 | The layout of the parameter pages field by field: the number of parameters, then type, size, value and data of each, the last parameter first. |
| `TvSpace.EncodeByte` | hypapps/trustvisor/src/scode.c:862-880 | Fields are written with the low byte first. |
| `TvMarshall.RegsKeptIff` | hypapps/trustvisor/src/scode.c:795-1067 | From parameter k on handed over, the registers are unchanged if and only if no pointer among the first six of a 64-bit caller moved. |
| `TvMarshall.SecondPointerMoves` | hypapps/trustvisor/src/scode.c:795-1067 | Two pointers, the first unreadable: marshalling stops at the first and has already replaced the second. |
| `TvMarshall.Unmarshall` | hypapps/trustvisor/src/scode.c:1209-1328 | Walks exactly the records and writes each pointer parameter's data back to where it came from; then rcx, rdx, rsi, rdi and r8 to r11 are zero for a 64-bit caller, ecx and edx for a 32-bit one. |
| `TvMarshall.MarshalledHolds` | hypapps/trustvisor/src/scode.c:795-1067 | What marshalling has laid out is what unmarshalling can walk. |
| `TvMessage.WriteBackBuffer` | hypapps/trustvisor/src/scode.c:1209-1328 | With buffers that do not overlap, every buffer gets its own data. |
| `TvMessage.WriteBackElsewhere` | hypapps/trustvisor/src/scode.c:1209-1328 | Memory outside the buffers keeps its contents. |
| `TvCall.CalleeSees` | hypapps/trustvisor/src/scode.c:795-1067 | The PAL finds each argument, the value or the address of the copied buffer, in rdi, rsi, rdx, rcx, r8, r9 and then on the stack if it is 64-bit, on the stack if it is 32-bit. |
| `TvCall.CalleeReads` | hypapps/trustvisor/src/scode.c:795-1067 | A copied buffer starts out as the caller's. |
| `TvCall.Enter` | hypapps/trustvisor/src/scode.c:1072-1207 | Succeeds exactly when the call is enterable; then the parameters and the sentinel are laid out and the machine is confined to the PAL; otherwise the lock is free and the caller where it was, but for the registers: exactly which are changed, and when none is. |
| `TvCall.Exit` | hypapps/trustvisor/src/scode.c:1331-1420 | Gives the caller back its stack pointer plus one word, return address, page-table roots, interrupt flag, CR0.EM and exception bitmap, clears the caller-saved registers, and releases the lock. |
| `TvCall.Call` | hypapps/trustvisor/src/scode.c:1072-1420 | A whole call: the caller comes back exactly as it left, and its memory differs only in the data the PAL has left in its pointer buffers. |
| `QsortBytes.SwapFunc` | xmhf/src/libbaremetal/libxmhfc/qsort.c:56-77 | Exchanges n bytes at two places, in words or bytes, whichever place comes first, and also if they are the same. |
| `QsortBytes.BytesToElements` | xmhf/src/libbaremetal/libxmhfc/qsort.c:56-87 | Exchanging the bytes of k elements exchanges the elements and nothing else. |
| `QsortBytes.Elements.Swap` | xmhf/src/libbaremetal/libxmhfc/qsort.c:79-85 | The two elements are exchanged, in either order or the same, and no other byte changes. |
| `QsortBytes.Elements.VecSwap` | xmhf/src/libbaremetal/libxmhfc/qsort.c:87 | The two runs of elements are exchanged, and no other byte changes. |
| `Qsort.Med3` | xmhf/src/libbaremetal/libxmhfc/qsort.c:95-105 | The median of three elements. |
| `Qsort.Partition` | xmhf/src/libbaremetal/libxmhfc/qsort.c:138-167 | Equal elements at both ends, smaller ones after the left end, greater ones before the right end, and nothing left between. |
| `Qsort.Gather` | xmhf/src/libbaremetal/libxmhfc/qsort.c:176-180 | The equal elements meet in the middle: smaller, equal, greater. |
| `Qsort.Sort` | xmhf/src/libbaremetal/libxmhfc/qsort.c:113-193 | For every total preorder the elements end up sorted and are a permutation of those before; recursion and loop end. |
| `Qsort.SortMemory` | xmhf/src/libbaremetal/libxmhfc/qsort.c:113-193 | The same stated on memory: the elements that the bytes hold are sorted, their multiset is the old one, and no byte before or after them changes. |
| `PeUnreloc.ProcessRelocations` | hypapps/lockdown/src/app/approvedexec-windows.c:231-262 | Subtracts the load delta at every entry of type 3 in order, and reports the first type it does not know; an entry is given by its two bytes, twelve bits of offset below four of type. |
| `PeReloc.PageRestored` | hypapps/lockdown/src/app/approvedexec-windows.c:268-446 | The page comes out as it was before the image was relocated, including sites that straddle into or out of it and borrows across the boundary. |
| `PeUnreloc.UnrelocatePage` | hypapps/lockdown/src/app/approvedexec-windows.c:268-446 | When it reports that it has undone the relocations, the output page is the page of the original image; otherwise the output is untouched. Says exactly which code it reports. |
| `PeLoader.LoaderRelocates` | hypapps/lockdown/src/app/approvedexec-windows.c:268-446 | What a loader produces that adds the delta at every site is the image relocated by it. |
| `PeLoader.NothingNeeded` | hypapps/lockdown/src/app/approvedexec-windows.c:313-372 | A page without a block of its own, reported as needing nothing, is unchanged for every image if and only if no site of the page before reaches into it. |

## Findings

Places where the code does not do what its callers would expect. The members named give the conditions and inputs.

- `mp_toom_mul` adds a coefficient that is zero, shifted up without being trimmed, to a shorter number of the other
  sign, and `mp_cmp_mag` then takes the row of zeros for the larger one. `MpMul.Toom` gives the error exactly,
  `MpMul.ExactlyAgrees` the condition, `MpMul.ToomCounterexample` an input of 350 digits. Operands of one sign are
  safe (`MpMul.PlainIsExact`).
- `fast_s_mp_mul_digs` copies one column more than it computes, so a digit that nothing has written ends up above
  the product. The row-by-row form of `mp_montgomery_reduce` reads it, and for a product with zero, where it is digit
  0, so do `mp_cmp_d`, `mp_add_d` and `mp_montgomery_setup` (see below). `MpExptmod.ExptmodFast`: modular
  exponentiation runs into it if and only if the modulus has 256 digits or more and the sliding window multiplies two
  powers with short Montgomery forms. `MpExptmod.ShortFormStrays`: with g = 0, and with every g whose form is short,
  it does for every such modulus. `MpExptDispatch.StrayExample` has one for which g = 2 does,
  `MpExptDispatch.SteadyExample` those for which 3^3 does not. `MpMontgomery.ReduceFound` gives what is computed
  then, `MpRedux.ReduceTwice` and `MpExptmod.CubeOfZero` show that the digit changes the answer. `MpPrime.IsPrime`
  inherits it.
- `mp_reduce_2k_setup` keeps one digit of a factor that can be BASE. `MpExptDispatch.Exptmod`: `mp_exptmod` is right
  for all g and x if and only if the modulus is not of the form (2^j - 1) BASE with two digits, or is BASE itself;
  for any other such modulus BASE^2 comes out as 0.
- `mp_exptmod` returns 1 for g^0 modulo 1 (`MpExptDispatch.Exptmod`), and the diminished radix reduction is never
  chosen (`MpExptDispatch.DiminishedIsLong`).
- `mp_montgomery_calc_normalization` gives b instead of 0 if and only if b is a power of two 2^e of several digits with
  e + 1 not a multiple of the digit size (`MpMontgomery.CalcNormalization`, `MpMontgomery.BaseStays`); its callers only
  have odd b.
- `mp_mod` by a negative number leaves a residue in [b, 0), so b itself for a multiple (`MpMod.Mod`).
- `fast_mp_invmod` does not end for a multiple of b (`MpInvmod.MultiplesNeverEnd`), and for a < 0 it returns a
  number with a c = -1 (`MpInvmod.FastInvmod`).
- `mp_cmp_d`, `mp_add_d` and `mp_montgomery_setup` read digit 0 of a zero, which has none (`MpInts.CmpD`,
  `MpDigitOps.AddD` and `MpMontgomery.Setup` have the exact conditions, `MpDigitOps.OneTooMany` an input). In
  `mp_prime_miller_rabin` a base that is not prime to the number brings a zero before `mp_cmp_d`
  (`MpPrime.ZeroTurnsUp`).
- `mp_prime_is_prime` answers yes for 1 (`MpPrime.IsPrime`).
- `tlsf_create` accepts a pool of exactly `block_size_max` bytes, whose first block belongs to a class past the table
  (`TlsfMapping.LargestAcceptedPoolIsOutOfRange`), and `mapping_search` rounds requests in the last 64th below
  `block_size_max` up to that class (`TlsfMapping.RoundUpLimit`).
- A PAL section over the page of the sentinel return address loses its mapping to the sentinel. `scode_register`
  then halts unless the PAL can read that page all the same (`TvReturnPage.MeasureIff`), and `scode_unregister` halts
  under the condition of `TvReturnPage.UnregisterIff`; the four runs in `TvReturnPage` reach both outcomes.
- Marshalling hands pointers over from the last parameter to the first, in the registers of a 64-bit caller, and a
  failure does not put them back. `TvCall.Enter` says which have changed when an entry fails, `TvMarshall.RegsKeptIff`
  when none has, `TvMarshall.SecondPointerMoves` gives an input.
- `windows_unrelocatepage` reports a page without a block of its own as needing nothing, although a site of the page
  before may reach into it (`PeLoader.NothingNeeded`).

## Left out

- Tlsf.Malloc: requests above `SEARCH_LIMIT`, for which the search leaves the table (see Findings); the same holds for
  TlsfAlign.Memalign, and for TlsfRealloc.Realloc unless the block can be resized in place.
- TlsfAlign.Memalign: a zero or oversized request with an alignment above the word, for which the code searches for the
  alignment alone.
- TlsfRealloc.Realloc: a live pointer with a size of `block_size_max` or more, which the code trims in place.
- TlsfRuns.Create: a pool of exactly `block_size_max` bytes (see Findings).
- MpMul.ExactlyAgrees: one direction only for a shorter operand of more than 1040 digits, where a part may be a wrong
  product itself and errors of several parts could cancel in the interpolation.
- MpMul.Sqr: stands for the four squaring routines; they are not modelled digit by digit.
- MpMod.MulMod: gives the result only where `mp_mul` is exact (see Findings).
- MpExptDispatch.Exptmod: no negative exponent, which goes through an inversion first.
- MpExptmod.ExptmodFast: says nothing about the result of a run that strays, because the code has no defined one.
- MpPrime.IsPrime: a prime of 256 digits or more that is turned away because a round strays is not exhibited.
- MpPrime.MillerRabin: not for 0, where the exponent is negative.
- MpInvmod.FastInvmod: not for a multiple of b, where the loop does not end (see Findings).
- MpBarrett.Reduce: 0 <= x < m^2, as its comment asks.
- Qsort.Sort: arrays of up to INT_MAX bytes, because the code keeps byte counts in int variables; no `qsort_r`.
- TvReturnPage.UnregisterIff: not for a PAL registered with a SHARED section over the return page, which an exit may
  release; TvReturnable.GiveBackIff covers it.
- TvSafety.RunIsSafe: section types SHARED_CODE and GUEST_PAGE_TABLES, which are meant to be visible to both sides.
- TvCall.Call: the checks that end a PAL on a nested page fault, and errors after the change of page tables, which the
  code treats as impossible.
- Other squarings, `mp_gcd`, `mp_invmod_slow`, `mp_n_root`, the Jacobi symbol, Fermat and next-prime: they would repeat
  the same arguments.
- The micro-TPM, NVRAM, random numbers, VMX/SVM intercepts, DMA protection, boot code and the rest of the hypapps.
- Allocation failure of `mp_grow` and `malloc` inside the big integers.
- Concurrency: the operations on page tables run with other processors quiesced, and one at a time here.
