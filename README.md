# Cache lab and data lab, modelled in Dafny

This project models three C files of a systems-programming course repository
and proves what they compute.

- **The cache simulator** (`cache_lab/cachelab-handout/csim.c`) replays a
  memory trace against a set-associative cache. The cache has 2^s sets of E
  lines and LRU replacement, and the simulator counts hits, misses and
  evictions.
  - Module `Lru` (`lru.dfy`) holds what one access does to one set, on values.
    A set's doubly linked list is the sequence of its lines, most recently
    used first.
  - Module `Trace` (`trace.dfy`) holds the pure parts of the trace loop: the
    hexadecimal address parser (`getInt` and the digit loop) and the split of
    an address into tag, set index and block offset. It uses C's shift, xor
    and mask operators, written out on integers.
  - Module `Csim` (`csim.dfy`) holds the simulator object: a class whose
    fields are the sets and the three counters. Its methods (`initCache`,
    `find_tag`, `move_to_head`, `load`, `store`, `modify`, one trace line,
    the trace loop) change them in place. They are proved against the
    functions of `Lru`.
- **The transpose kernels** (`cache_lab/cachelab-handout/trans.c`) are in
  module `Trans` (`trans.dfy`). They are methods over `array2<int>` that
  write B in place with the source's nested loops: the baseline `trans`, the
  checker `is_transpose`, and the three blocked branches of
  `transpose_submit`. The 64×64 branch parks half a block in B and moves it
  later. Each kernel is proved to leave B equal to A's transpose. Each has
  `modifies B` and `A != B`, so A is never written.
- **The data-lab puzzles** (`data_lab/lab1-handout/bits.c`) are in module
  `Bits` (`bits.dfy`). Each function is a `bv32` function that follows the C
  expression operator by operator, with a lemma stating what it computes.
  C's `>>` on `int` is an arithmetic shift (`Sar`), and signed overflow
  wraps. A signed value is read exactly through its 64-bit sign extension
  (`Wide`). The two functions that do not compute what their comments
  promise are listed under Findings.

## Model

| member | source | states |
|---|---|---|
| Bits.LsbZeroSpec | data_lab/lab1-handout/bits.c:175-178 | bit 0 of the result is 0, and bits 1–31 are those of x |
| Bits.ByteNotSpec | data_lab/lab1-handout/bits.c:187-190 | for n ≤ 3, byte n of the result is byte n of x inverted, and every other byte is unchanged |
| Bits.ByteXorSpec | data_lab/lab1-handout/bits.c:201-206 | the result is 0 when byte n of x equals byte n of y, and 1 otherwise |
| Bits.LogicalAndSpec | data_lab/lab1-handout/bits.c:213-216 | the result is 1 exactly when both arguments are non-zero, and 0 otherwise (C's `x && y`) |
| Bits.LogicalOrSpec | data_lab/lab1-handout/bits.c:223-226 | the result is 1 exactly when either argument is non-zero, and 0 otherwise (C's `x \|\| y`) |
| Bits.RotateLeftSpec | data_lab/lab1-handout/bits.c:235-242 | for 1 ≤ n ≤ 31 the two masks give `(x << n) \| (x >>> (32 - n))`, a left rotation |
| Bits.ParityCheckSpec | data_lab/lab1-handout/bits.c:250-258 | the halving folds give the xor of all 32 bits of x: 1 exactly when x has an odd number of 1 bits |
| Bits.FoldFirstParity | data_lab/lab1-handout/bits.c:252 | the first fold leaves a 16-bit value whose 16-bit parity is the parity of x |
| Bits.Mul2OKCounterexamples | data_lab/lab1-handout/bits.c:268-273 | as written: INT_MIN gets 1 though 2·INT_MIN overflows, and −2^30 gets 0 though −2^31 fits |
| Bits.Mul2OKAgrees | data_lab/lab1-handout/bits.c:268-273 | on every other input the code as written agrees with the corrected test |
| Bits.Mul2OKFixedSpec | data_lab/lab1-handout/bits.c:259-273 | the corrected test is 1 exactly when the exact product 2·x lies in the int range |
| Bits.TripleByShift | data_lab/lab1-handout/bits.c:293 | `(x << 1) + x` is the wrapped 32-bit product 3·x |
| Bits.HalveTowardZeroSpec | data_lab/lab1-handout/bits.c:294-295 | `(y >> 1) + r` is y / 2 rounded toward zero: y − 2·q is 0 or −1 for negative y, and 0 or 1 otherwise |
| Bits.Mult3Div2Halves | data_lab/lab1-handout/bits.c:285-296 | mult3div2(x) is the wrapped 3·x halved toward zero, as C's `x*3/2` is |
| Bits.Mult3Div2Spec | data_lab/lab1-handout/bits.c:274-296 | the remainder of the wrapped 3·x after subtracting twice the result is 0, or ±1 with the sign of 3·x (division truncating toward zero) |
| Bits.Mult3Exact | data_lab/lab1-handout/bits.c:274-280 | when 3·x fits in an int, the wrapped product is the exact one |
| Bits.TwosComplementNegates | data_lab/lab1-handout/bits.c:309 | `~y + 1` is the two's-complement negation of y |
| Bits.SubOKSpec | data_lab/lab1-handout/bits.c:297-311 | the result is 1 exactly when the exact difference x − y lies in the int range, and 0 otherwise |
| Bits.SubOKBySigns | data_lab/lab1-handout/bits.c:305-311 | the result is 0 exactly when x and y differ in sign and the wrapped difference has y's sign |
| Bits.SubFitsBySigns | data_lab/lab1-handout/bits.c:305-311 | the exact difference overflows exactly when the signs differ and the wrapped difference has y's sign (the rule the code relies on) |
| Bits.AbsValSpec | data_lab/lab1-handout/bits.c:312-324 | for x ≠ INT_MIN the signed value of the result is the absolute value of x |
| Bits.FloatAbsSpec | data_lab/lab1-handout/bits.c:325-344 | a NaN comes back unchanged; any other pattern comes back with sign bit 0 and the same exponent and fraction fields |
| Bits.FloatAbsNegate | data_lab/lab1-handout/bits.c:336-344 | off NaNs the result ignores the sign bit of the argument and is idempotent |
| Bits.MagnitudeIsFloor | data_lab/lab1-handout/bits.c:368-375 | for an unbiased exponent E ≤ 30 the shifted significand is the floor of 1.f · 2^E |
| Bits.FloatF2ICounterexample | data_lab/lab1-handout/bits.c:361-363 | as written, 0x4F400000 (3·2^30, exponent 31) gives 0xC0000000 and 0xCF400000 (−3·2^30) gives 0x40000000; the corrected version gives 0x80000000 for both |
| Bits.FloatF2IAgrees | data_lab/lab1-handout/bits.c:357-377 | on every pattern whose unbiased exponent is not 31, the code as written agrees with the corrected version |
| Bits.FloatF2IFixedSpec | data_lab/lab1-handout/bits.c:345-377 | corrected: exponent ≥ 31 (NaN and infinity included) gives 0x80000000, exponent < 0 gives 0, and otherwise the result is the truncated value with the sign applied |
| Lru.FirstHolding | cache_lab/cachelab-handout/csim.c:137-146 | the result is the first line from the MRU end that is valid and carries the tag; it is None exactly when no line does |
| Lru.FirstInvalid | cache_lab/cachelab-handout/csim.c:165-174 | the result is the first invalid line from the MRU end; it is None exactly when every line is valid |
| Lru.MoveToFront | cache_lab/cachelab-handout/csim.c:150-154 | the moved line becomes `head->next`, the lines before it shift back by one, and the lines after it keep their places |
| Lru.MoveToFrontPermutes | cache_lab/cachelab-handout/csim.c:150-154 | the set holds the same lines after the move (a permutation) |
| Lru.MoveToFrontRest | cache_lab/cachelab-handout/csim.c:152-153 | behind the new front, the other lines keep their relative order |
| Lru.Touch | cache_lab/cachelab-handout/csim.c:156-187 | the set keeps its E lines, and a valid line with the tag sits at the MRU position; the access is a hit exactly when some line holds the tag, and an eviction exactly when none does and every line is valid |
| Lru.TouchFillsFirstInvalid | cache_lab/cachelab-handout/csim.c:164-181 | a miss without eviction fills the first invalid line from the MRU end, and the other lines keep their order |
| Lru.TouchEvictsLast | cache_lab/cachelab-handout/csim.c:175-179 | an eviction replaces the last (LRU) line, `tail->prev`, and the other lines keep their order |
| Lru.TouchHitReorders | cache_lab/cachelab-handout/csim.c:150-154 | a hit moves the line holding the tag to the front and the other lines keep their relative order behind it, so the set holds the same lines |
| Lru.TouchValidCount | cache_lab/cachelab-handout/csim.c:156-187 | the number of valid lines goes up by one on a fill and stays the same on a hit or an eviction |
| Lru.TouchKeepsLines | cache_lab/cachelab-handout/csim.c:156-187 | every valid line of the set is still in it after the access, except the last (LRU) line when it is evicted; so a valid line never becomes invalid |
| Lru.LastAccess | cache_lab/cachelab-handout/csim.c:156-187 | the position of the last access to a tag in the access history: that entry is the tag and no later one is; -1 exactly when the tag was never accessed |
| Lru.TouchKeepsRecency | cache_lab/cachelab-handout/csim.c:156-187 | if the set's list is ordered by recency of the access history (each valid line's tag was accessed, and a line nearer `head->next` more recently than every valid line behind it), it still is after one more access, for the history extended by that access |
| Lru.EvictsLeastRecent | cache_lab/cachelab-handout/csim.c:175-179 | in a set ordered by recency, the line an eviction replaces is the least recently used one (its last access precedes every other line's), and after the access no line holds its tag |
| Lru.EmptySetRecency | cache_lab/cachelab-handout/csim.c:92-108 | a set of invalid lines, as `initCache` builds it, is ordered by recency for the empty history, so every set starts in LRU order |
| Lru.TouchUnique | cache_lab/cachelab-handout/csim.c:156-187 | no two valid lines of the set carry the same tag after the access, if none did before |
| Lru.TouchTwice | cache_lab/cachelab-handout/csim.c:193-195 | a second access to the same tag is a hit that leaves the set as it is |
| Trace.GetIntHexDigit | cache_lab/cachelab-handout/csim.c:130-133 | `getInt` maps each lower-case hex digit to its value 0–15 and is inverse to the digit spelling |
| Trace.HexRoundTrip | cache_lab/cachelab-handout/csim.c:208 | reading the hex spelling of v back gives v |
| Trace.CommaFrom | cache_lab/cachelab-handout/csim.c:208 | the scan stops at the first ',' at or after position i |
| Trace.ParseAddress | cache_lab/cachelab-handout/csim.c:207-208 | the loop returns the base-16 value of the characters from index 3 up to the first ',' |
| Trace.LowMask | cache_lab/cachelab-handout/csim.c:213 | `~(-1 >> b << b)` is 2^b − 1, the mask of the low b bits |
| Trace.AndLowMask | cache_lab/cachelab-handout/csim.c:213 | `a & (2^b − 1)` is a mod 2^b |
| Trace.XorClearsHigh | cache_lab/cachelab-handout/csim.c:211-212 | xor with its own high part, shifted back, leaves a mod 2^k |
| Trace.SetIndexOf | cache_lab/cachelab-handout/csim.c:212 | the set index is below 2^s, so it names a set |
| Trace.BlockIndexOf | cache_lab/cachelab-handout/csim.c:213 | the block offset is below 2^b |
| Trace.SetIndexValue | cache_lab/cachelab-handout/csim.c:212 | the set index is (addr mod 2^(s+b)) div 2^b |
| Trace.BlockIndexValue | cache_lab/cachelab-handout/csim.c:213 | the block offset is addr mod 2^b |
| Trace.MixedRadix | cache_lab/cachelab-handout/csim.c:211-213 | an address is rebuilt from its quotient, middle digit and remainder in radix p·q |
| Trace.AddressSplit | cache_lab/cachelab-handout/csim.c:211-213 | tag · 2^(s+b) + set index · 2^b + block offset = addr (the split round-trips) |
| Csim.Accesses | cache_lab/cachelab-handout/csim.c:206-222 | an 'I' line makes no access, 'M' makes two, 'L' and 'S' one each |
| Csim.Cache.constructor | cache_lab/cachelab-handout/csim.c:92-108 | 2^s sets of E lines, every line invalid with tag 0, and the counters at 0 |
| Csim.Cache.FindTag | cache_lab/cachelab-handout/csim.c:137-146 | it finds a line exactly when the set holds a valid line with the tag, and the line found is valid and carries the tag (the first such, from the MRU end) |
| Csim.Cache.MoveToHead | cache_lab/cachelab-handout/csim.c:150-154 | only the current set changes, becoming `MoveToFront` of it; the counters are unchanged |
| Csim.Cache.FindEmpty | cache_lab/cachelab-handout/csim.c:165-174 | the scan returns the first invalid line from the MRU end, or none |
| Csim.Cache.EvictLast | cache_lab/cachelab-handout/csim.c:175-179 | the last line is moved to the front and retagged; nothing else changes |
| Csim.Cache.FillLine | cache_lab/cachelab-handout/csim.c:180-181 | the chosen line becomes valid with the tag and moves to the front; nothing else changes |
| Csim.Cache.Load | cache_lab/cachelab-handout/csim.c:156-187 | only the current set changes, to `Touch` of it. Exactly one of hits and misses goes up, and evictions goes up only on a miss in a set with no invalid line. Every set keeps E lines with distinct valid tags |
| Csim.Cache.Store | cache_lab/cachelab-handout/csim.c:189-191 | exactly the effect of a load |
| Csim.Cache.Modify | cache_lab/cachelab-handout/csim.c:193-195 | the set changes as in one load; hits goes up by 2 on a hit and 1 otherwise, and misses by at most 1 |
| Csim.Cache.Step | cache_lab/cachelab-handout/csim.c:205-222 | an 'I' line changes nothing; any other line splits its parsed address and performs the access its letter names on the set the address selects |
| Csim.StepState | cache_lab/cachelab-handout/csim.c:205-222 | one trace line keeps the cache well formed, never lowers a counter, adds its number of accesses to hits + misses, and adds no more evictions than misses; an 'I' line changes nothing |
| Csim.Run | cache_lab/cachelab-handout/csim.c:205-223 | the trace loop as a fold of the per-line step: the cache stays well formed, no counter goes down, hits + misses grows by the trace's number of accesses, and evictions grow by no more than misses |
| Csim.Cache.Simulate | cache_lab/cachelab-handout/csim.c:205-223 | the final sets and the three counters are `Run` of the initial ones over the trace; so the cache stays well formed, no counter goes down, every access counts once as a hit or a miss, and there are never more new evictions than new misses |
| Trans.IsTranspose | cache_lab/cachelab-handout/trans.c:232-244 | returns 1 exactly when `A[i][j] == B[j][i]` for every i < N and j < M, and 0 exactly when some cell differs |
| Trans.Trans | cache_lab/cachelab-handout/trans.c:197-208 | for any N and M, B ends up as A's transpose |
| Trans.CopyColumn8 | cache_lab/cachelab-handout/trans.c:36-54 | column k of A's rows i..i+7 lands in row k of B, and no other cell of B changes |
| Trans.Transpose32 | cache_lab/cachelab-handout/trans.c:26-55 | with N = 32 and M a multiple of 8, all indices stay in range and B ends up as A's transpose |
| Trans.StageRow | cache_lab/cachelab-handout/trans.c:121-142 | one k step: `B[j+t][k] == A[k][j+t]` and `B[j+3-t][k+4] == A[k][j+4+t]` for t < 4, and no other cell of B changes |
| Trans.Stage | cache_lab/cachelab-handout/trans.c:121-142 | after the k loop, the top-left quarter of the block is final, and the top-right quarter holds A's top-right quarter transposed with its rows reversed; nothing outside the block changes |
| Trans.MoveParked | cache_lab/cachelab-handout/trans.c:156-159 | the parked row j+3−l moves to row j+4+l of the bottom-left quarter, where it is final |
| Trans.PlaceColumns | cache_lab/cachelab-handout/trans.c:146-168 | the right-hand halves of rows j+3−l and j+4+l receive A's bottom-half columns, transposed |
| Trans.Fix | cache_lab/cachelab-handout/trans.c:143-169 | after the l loop, every cell of the 8×8 block is transposed, and nothing outside the block changes |
| Trans.Transpose64 | cache_lab/cachelab-handout/trans.c:117-171 | with N = 64 and M a multiple of 8, B ends up as A's transpose |
| Trans.Transpose67 | cache_lab/cachelab-handout/trans.c:173-183 | with the guards `k < N` and `m < M`, for any M, B ends up as A's transpose |
| Trans.TransposeSubmit | cache_lab/cachelab-handout/trans.c:24-186 | for N = 32, 64 or 67 B ends up as A's transpose, and for any other N, B is unchanged |

## Left out

- Command-line parsing (`parseParams`, `printUsage`), opening and reading the trace file, the debug `printf` at csim.c:214, and `printSummary`. They are I/O. `Simulate` takes the trace as a sequence of lines.
- The size field of a trace line (csim.c:209): it is parsed and never used.
- `freeCache`, the `malloc` calls and the per-line `data` buffers. They are memory management; the buffers are never read.
- `pow` from `math.h`: the set count is `Trace.Pow2(s)`.
- Pointers: a set's doubly linked list with its two sentinels is modelled as the sequence of its lines from `head->next` to `tail->prev`. `move_to_head` and the pointer rewiring become sequence updates. Aliasing between lines is not modelled.
- `getMode` on a character other than 'L', 'S' or 'M': it has no return path. `Trace.TraceLine` admits only those letters, or an 'I' line.
- Csim.Cache.constructor: requires E ≥ 1. With E = 0 the eviction branch would take the head sentinel as its victim.
- Csim.Cache and Csim.State: the `hits`, `misses` and `evictions` counters are C `int`s (csim.c:148) that would wrap after 2^31 increments; the model keeps them as unbounded naturals and does not model that overflow.
- Trace.Address and the address split: addresses are unbounded naturals. The 32-bit `int` wrap-around for addresses of 2^31 and above (csim.c:207-212) is not modelled.
- Csim.Cache.Step and Csim.Cache.Simulate: every address character must be a lower-case hexadecimal digit. The source's loop (csim.c:207-208) passes any character before the ',' to `getInt`, which silently folds an upper-case or malformed digit in (`getInt('A')` is −22); such lines are not modelled.
- Csim.Cache.Step: the `block_index` the source computes is never used by an access, so `Step` does not compute it. Its properties are proved in `Trace.BlockIndexOf` and `Trace.AddressSplit`.
- Csim.Cache.Load: split into the helper methods `FindTag`, `FindEmpty`, `EvictLast`, `FillLine` and `MoveToHead`, following the branches of `load`.
- Trans.PlaceColumns: the reads of A come right before the writes that use them, rather than at the top of the `l` step. A is never written, so the values are the same.
- Trans.Transpose32, Trans.Transpose64, Trans.TransposeSubmit: require M to be a multiple of 8 when N is 32 or 64. Otherwise the source's blocks index past the end of the rows (undefined behaviour), and the driver only calls these branches on 32×32 and 64×64 matrices.
- Trans.Trans and the other kernels: require `A != B`, as the driver passes two distinct matrices. The miss counts of the transposes on the simulated cache, `registerFunctions` and the commented-out `main` are performance and harness code.
- Bits.RotateLeftSpec: requires 1 <= n <= 31. For n = 0 the shift count `n + ~1 + 1` at bits.c:237 is −1, which is undefined behaviour in C.
- Bits.AbsValSpec: requires x ≠ INT_MIN, as the function's comment allows (−TMax ≤ x ≤ TMax).
- The data lab's limits on operator counts, legal operators and constants: they restrict how the functions may be written, not what they compute.
- `float_abs` and `float_f2i` are modelled on the bit patterns of IEEE 754 binary32 values. No floating-point arithmetic is involved.

## Findings

| source | as written | input that shows it | evidently intended | confidence | as-written member | corrected member |
|---|---|---|---|---|---|---|
| data_lab/lab1-handout/bits.c:268-273 | `mul2OK` takes the absolute value of x first, then tests bit 31 of twice that | x = 0x80000000 (INT_MIN) gives 1; x = 0xC0000000 (−2^30) gives 0 | 1 exactly when 2·x does not overflow: 0 for INT_MIN, 1 for −2^30 | not executed; proved on the model | Bits.Mul2OKCounterexamples | Bits.Mul2OKFixedSpec |
| data_lab/lab1-handout/bits.c:361-363 | `float_f2i` rejects only unbiased exponents above 31, so exponent 31 reaches `m << 8`, which wraps | uf = 0x4F400000 (3·2^30) gives 0xC0000000; uf = 0xCF400000 (−3·2^30) gives 0x40000000 | every value of magnitude 2^31 or more is out of range and gives 0x80000000 | not executed; proved on the model | Bits.FloatF2ICounterexample | Bits.FloatF2IFixedSpec |
