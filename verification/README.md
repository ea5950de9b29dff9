# dieharder: bit engine, two tests' counting passes, the XOR supergenerator and generator selection

This project models, in Dafny, the integer core of the dieharder random
number test suite:

- **The bit engine** (`libdieharder/static_get_bits.c`). `get_rand_bits_uint`
  turns the draws of a generator, each `rmax_bits` wide, into requests of any
  width up to 32, read most significant bit first, through a one-word buffer.
  The buffer's two function-local statics are an explicit `EngineState`
  record here. The generator is an abstract sequence of draws, each below
  `2^rmax_bits`. The two `get_bit_ntuple_*` helpers are modelled as cyclic
  extractors over a `w`-bit word.
- **Windows at bit positions** (`Windows`). The Serial and Bitstream tests
  share one computation: a `w`-bit substring read at bit `pos` of a word
  array, either from one shifted word or from two words spliced.
- **The Serial test** (`libdieharder/sts_serial.c`), following section 2.11
  of NIST SP 800-22. The model covers:
  - the cyclic buffer;
  - the count of every `nb`-bit factor;
  - the fold from level `m+1` to level `m`;
  - the `count[0] == sts_n` check;
  - `count0`/`count1`;
  - the order of the result slots.
- **The Diehard BITSTREAM test** (`libdieharder/diehard_bitstream.c`). The
  model covers the mode constants, the 20-bit windows, the presence table and
  the count of missing values.
- **The XOR supergenerator** (`libdieharder/rng_XOR.c`). The model covers the
  allocation dispatch `wrap_gsl_rng_alloc`, the lazy allocation and seeding
  in `XOR_set`, and `XOR_get`'s fold over one draw per operand, with an
  optional etalon draw.
- **Generator selection** (`dieharder/choose_rng.c`, `select_rng`). This is
  modelled as a function from a request and a type table to either an error
  or a resolved parameter record. It covers name and number resolution, the
  rules for entry 207, the operand count, seed shifting and derivation, file
  binding, the order of effects, and the bit length of the chosen
  generator's range.

Conventions:

- C `unsigned int` values are `nat`s below `2^32`.
- `x >> k` is `Shr(x, k)`, which equals `x / 2^k`.
- `x << k` is `Shl(x, k)`, which equals `(x * 2^k) mod 2^32`.
- `&`, `|` and `^` are defined bit by bit (`Bits.And`, `Bits.Or`, `Bits.Xor`).
- Bit strings are `seq<bool>`, most significant bit first (`ToBits`/`FromBits`).
- Generators are abstract draw functions. Random seeds and the draws of the
  seed generator are inputs.

## Model

| member | source | states |
|---|---|---|
| GetBits.GetRandBits | libdieharder/static_get_bits.c:28-87 | The result is the next nbits bits of the draw stream, most significant first, and below 2^nbits. The stream position advances by exactly nbits. The buffer invariant holds afterwards: fewer than rmax_bits bits wait, and they are the low bits of the last draw. nbits = 0 returns 0 and changes nothing. An empty buffer with nbits = rmax_bits returns the raw next draw. A request the buffer covers draws nothing. |
| GetBits.FreshWord | libdieharder/static_get_bits.c:50-52 | With an empty buffer, the fast path returns exactly the next draw, makes one draw, and leaves the buffer empty. |
| GetBits.BufferedBits | libdieharder/static_get_bits.c:59-62 | When at least nbits bits are buffered, no draw happens. The result is the next nbits buffered bits, and bits_left drops by exactly nbits. |
| GetBits.HeadBits | libdieharder/static_get_bits.c:63-71 | The leftover buffered bits become the high bits of the answer. They sit above the `need = nbits - bits_left` bits still owed, and `need` is between 1 and 32. |
| GetBits.Refill | libdieharder/static_get_bits.c:72-86 | The refill loop ends after at least one draw. The answer is the stream bits from the start position to the new position, and the buffer invariant is restored. |
| GetBits.WholeDraw | libdieharder/static_get_bits.c:83-85 | A pass that takes a whole draw appends that draw below the answer, and the owed count drops by rmax_bits. |
| GetBits.LastDraw | libdieharder/static_get_bits.c:75-81 | The last draw completes the answer. Its unused low rmax_bits - need bits stay in the buffer. |
| GetBits.Unread | libdieharder/static_get_bits.c:43-45 | The unread part of the stream is the low bits_left bits of bit_buffer, in order. |
| GetBits.ReadStep | libdieharder/static_get_bits.c:28-87 | One more call extends the concatenation of the outputs so far by that call's bits. |
| GetBits.ReadAll | libdieharder/static_get_bits.c:19-20 | Over any run of calls, the outputs, concatenated at their widths, equal the stream bits from the starting position on. No bit is dropped or read twice, and every output is below 2^width. |
| GetBits.WholeDraws | libdieharder/static_get_bits.c:40-41 | From the initial state, a run whose widths add up to whole draws leaves the buffer empty, having drawn exactly that many words. |
| GetBits.WrapStart | libdieharder/static_get_bits.c:105-106 | `bitstr >> boffset` holds the first w - boffset cyclic bits. |
| GetBits.WrapPass | libdieharder/static_get_bits.c:115-116 | One pass of the wrap loop ORs in the next cyclic copy of the word and advances len by w. |
| GetBits.WrapLoop | libdieharder/static_get_bits.c:112-117 | The wrap loop ends, and its result agrees with the cyclic bits on the low nbits. The number of passes is the least that covers nbits. |
| GetBits.NtupleWrap | libdieharder/static_get_bits.c:108-118 | The extractor returns the reference cyclic window. It makes no wrap pass exactly when boffset + nbits fits in the word. |
| GetBits.NtupleFromUint | libdieharder/static_get_bits.c:98-119 | Bit k of the result, for k < nbits, is bit (boffset + k) mod rmax_bits of the draw. The result is below 2^nbits. |
| GetBits.NtupleFromWholeUint | libdieharder/static_get_bits.c:132-151 | The same as NtupleFromUint with a fixed width of 32 and no reduction of boffset. The wrap loop runs at most once, and exactly when boffset + nbits > 32. |
| GetBits.CyclicBits | libdieharder/static_get_bits.c:98-119 | The reference cyclic window is below 2^n. Its bit k is bit (boffset + k) mod w of the word. |
| Windows.WordAt | libdieharder/diehard_bitstream.c:93 | Word i of the array occupies bits 32i to 32i+31 of the bit string, most significant bit first. |
| Windows.InBoundsIff | libdieharder/sts_serial.c:64-70 | The reads of word pos/32, and of word pos/32+1 when the window crosses it, are in bounds exactly when the window lies inside the string. |
| Windows.OneWord | libdieharder/sts_serial.c:66-67 | A window inside one word is that word shifted right and masked. |
| Windows.TwoWords | libdieharder/sts_serial.c:68-71 | A crossing window is the tail of one word spliced onto the head of the next. |
| Windows.ExtractWindow | libdieharder/sts_serial.c:61-72 | The w-bit value read at bit pos, for w < 32, is below 2^w. Its bits are the string's bits pos to pos+w-1. |
| StsSerial.FactorWraps | libdieharder/sts_serial.c:49-52 | The factor at position sts_n is the factor at position 0, so the string is read cyclically. |
| StsSerial.WrappedWindow | libdieharder/sts_serial.c:47-52 | Reading from the buffer with the first word repeated after the last gives the factor of the cyclic string, for every start position. |
| StsSerial.ReadFactor | libdieharder/sts_serial.c:63-72 | `sts_factor` at pos is the nb-bit factor of the cyclic string at pos, and is below 2^nb. |
| StsSerial.CountFactors | libdieharder/sts_serial.c:54-74 | After the base pass, count[v] is the number of positions whose nb-bit factor has value v, for every v < 2^nb. |
| StsSerial.FoldLevel | libdieharder/sts_serial.c:97-99 | The (m+1)-bit factors of values i and i + 2^m together are exactly the m-bit factors of value i. |
| StsSerial.FoldStep | libdieharder/sts_serial.c:97-99 | One fold step adds count[i + h] into count[i] for i < h and leaves the rest of the array as it was. |
| StsSerial.FoldKeepsLevel | libdieharder/sts_serial.c:94-99 | Folding the (m+1)-bit table yields the m-bit table. |
| StsSerial.FoldKeepsTotal | libdieharder/sts_serial.c:97-99 | A fold step keeps the total of the table it folds. |
| StsSerial.FoldCounts | libdieharder/sts_serial.c:79-100 | The table read at every level m from nb down to 0 holds the m-bit factor counts. count0 and count1 are the 1-bit counts of values 0 and 1. |
| StsSerial.LevelTotal | libdieharder/sts_serial.c:62-74 | The base pass makes one increment per position, so every level's table sums to sts_n. |
| StsSerial.LevelZero | libdieharder/sts_serial.c:101-102 | At level 0 the single entry is sts_n, so the fatal check cannot fire. |
| StsSerial.CountZeros | libdieharder/sts_serial.c:96 | The 1-bit factors of value 0 are the zero bits of the string. |
| StsSerial.MonobitCounts | libdieharder/sts_serial.c:96 | count0 is the number of zero bits, and count0 + count1 = sts_n. |
| StsSerial.SerialPass | libdieharder/sts_serial.c:45-102 | The whole integer pass never takes the internal-error exit. Every level's table holds the factor counts and sums to 32 * tsamples. count0 is the number of zero bits, and count0 + count1 = 32 * tsamples. |
| StsSerial.SlotLayout | libdieharder/sts_serial.c:107-130 | Slot 0 is the monobit test, slot 1 the first difference at m = 2, and slots 2m-4 and 2m-3 the first and second differences at m, for 3 <= m <= nb. There are 2nb-2 slots, or 30 for nb = 16. |
| StsSerial.SlotNtuples | libdieharder/sts_serial.c:111-127 | Slot 0 records ntuple 1, and slot j > 0 records ntuple (j + 4) / 2, which lies in 2 .. nb. |
| DiehardBitstream.Params | libdieharder/diehard_bitstream.c:77-87 | The words drawn in each mode hold every 20-bit window of the design size 2^21; without overlap they hold exactly that many windows. Both modes have the same expected count of missing values, 141909. |
| DiehardBitstream.LastWindow | libdieharder/diehard_bitstream.c:77-78 | In each mode, window MaxSamples - 1 is the last one that fits in the words drawn. |
| DiehardBitstream.SamplesInBounds | libdieharder/diehard_bitstream.c:99-109 | Every word read for windows 0 .. tsamples - 1 is in bounds exactly when tsamples <= MaxSamples, that is 2097165 with overlap and 2097152 without. Both include the design size 2^21. |
| DiehardBitstream.ReadWindow | libdieharder/diehard_bitstream.c:98-109 | `w20` is the 20-bit substring at the window's start (t, or 20t) and is below 2^20. |
| DiehardBitstream.MarkWindows | libdieharder/diehard_bitstream.c:95-111 | Afterwards, w[v] is set exactly for the values v that some window read has. Repeated values mark nothing new. |
| DiehardBitstream.CountMissing | libdieharder/diehard_bitstream.c:112-118 | The count of unmarked entries plus the number of marked entries is the table size. |
| DiehardBitstream.SeenRange | libdieharder/diehard_bitstream.c:16-17 | Every window value is one of the M = 2^20 twenty-bit values. |
| DiehardBitstream.SeenSize | libdieharder/diehard_bitstream.c:99-111 | tsamples windows show at most tsamples distinct values. |
| DiehardBitstream.MissingWords | libdieharder/diehard_bitstream.c:95-118 | ptest.x is M minus the number of distinct window values seen, so M - tsamples <= ptest.x <= M. |
| XorRng.WrapAlloc | libdieharder/rng_XOR.c:63-73 | Entry 207 gives the supergenerator. A name starting with "file_input" gives a file generator on file slot gfilenum[i-1], or gfilenum[0] for i = 0. Anything else gives a standard generator of that type. |
| XorRng.SetFrom | libdieharder/rng_XOR.c:114-125 | The seeding loop from operand i on: each operand is allocated from entry i+1 if still null, then set with its own seed. Other slots stay as they were. |
| XorRng.XorSet | libdieharder/rng_XOR.c:103-127 | Setting ignores the argument s. Every operand i < gvcount-1 restarts with seed gseeds[i]. An allocated operand keeps its kind, and a null one is allocated from entry i+1. Slots past the operands are unchanged. |
| XorRng.XorSetTwice | libdieharder/rng_XOR.c:103-127 | Setting twice, with any two seeds, is the same as setting once. |
| XorRng.XorAlloc | libdieharder/rng_XOR.c:33-61 | A fresh state is set once with the default seed. Afterwards every operand i is allocated from entry i+1 and seeded with gseeds[i]. |
| XorRng.XorFoldBit | libdieharder/rng_XOR.c:85-88 | Bit k of the XOR fold is set exactly when an odd number of the draws have bit k set. |
| XorRng.XorTruncate | libdieharder/rng_XOR.c:29 | Truncating the running value to 32 bits between steps gives the same 32-bit result as truncating once at the end. |
| XorRng.XorGet | libdieharder/rng_XOR.c:75-95 | The result is at most UINT_MAX. Bit k of it, for k < 32, is the parity of bit k over one draw of each of the gvcount-1 operands, plus the etalon's draw exactly when is_etalon and etalon_xor. Each operand advances by exactly one draw, other slots are untouched, and the etalon advances exactly when it is XORed in. |
| XorRng.SingleOperand | libdieharder/rng_XOR.c:15-18 | With gvcount = 2 and no etalon, the output is just the draw of operand 0, truncated to 32 bits. |
| ChooseRng.FindByName | dieharder/choose_rng.c:110-120 | The search returns the first index below 1000 whose entry is non-null and whose name matches in the first 20 characters. None means no such index exists. |
| ChooseRng.ResolveGenerators | dieharder/choose_rng.c:105-155 | Validation succeeds exactly when the request is valid. That means gvcount > 0, and every entry resolves (by name, or by number) to an in-range, non-null entry with a non-empty name. If entry 0 is 207, there must be another entry, and no other entry may be 207. On success the resolved numbers are written back. |
| ChooseRng.AssignSeeds | dieharder/choose_rng.c:161-181 | A first seed of 0 takes random seeds for the gscount operands and leaves the other slots alone. Otherwise seeds below declared-1 shift down one place, and slot declared-1 keeps its old seed, the one also shifted into slot declared-2. Seeds declared .. gscount-1 are the successive draws of generator 14 seeded with the first seed. All other seeds keep their values. |
| ChooseRng.RepeatedSeed | dieharder/choose_rng.c:168-180 | As the C loops are written, with a non-zero first seed and 2 <= declared <= gscount, operands declared-2 and declared-1 get the same seed. In the corrected reference SeedAfter, operand declared-1 gets the first derived draw, and its origin differs from that of operand declared-2. |
| ChooseRng.DistinctSeeds | dieharder/choose_rng.c:161-181 | In the corrected reference assignment SeedAfter, which derives from slot declared-1, every operand seed is the value of its origin (a declared slot or a derived draw), and no two operands share an origin. |
| ChooseRng.SingleSeedAgrees | dieharder/choose_rng.c:161-181 | With at most one declared seed, the corrected reference SeedAfter and the seeds as the C code computes them agree at every slot. |
| ChooseRng.BindFiles | dieharder/choose_rng.c:184-197 | Binding fails exactly when there are more file-backed operands than files. On success each file operand gets the count of file operands before it, each other operand gets GVECMAX, and later slots are unchanged. |
| ChooseRng.FilesDistinct | dieharder/choose_rng.c:184-197 | Distinct file operands get distinct files, in increasing order, all below fcount. |
| ChooseRng.RmaxBits | dieharder/choose_rng.c:284-293 | rmax_bits is the bit length of random_max: 2^(bits-1) <= random_max < 2^bits. rmax_mask = 2^bits - 1, so random_max <= rmax_mask. rmax_bits is at least 1 exactly when random_max is. |
| ChooseRng.WordRange | dieharder/choose_rng.c:284-293 | A generator whose max is UINT_MAX gets 32 bits and the mask UINT_MAX. |
| ChooseRng.ValidOperands | dieharder/choose_rng.c:156-159 | After validation, every one of the gscount operands names a usable entry, skipping the sentinel slot when entry 0 is 207. |
| ChooseRng.SelectRng | dieharder/choose_rng.c:103-300 | Selection fails exactly when the request is invalid or a file operand has no file, and a failure frees no generator and resets no buffer. The global Seed is set to gseeds[0] once the names resolve, even when file binding then fails. On success the old generator, if any, is freed and the read buffer is emptied, in that order, before the new generator is allocated from entry 0 and set with gseeds[0]. The new parameters hold the resolved numbers, the seeds over the whole seed array as AssignSeeds computes them (slot declared-1 repeating slot declared-2), the bound file numbers and the written-back gscount. The range facts hold for the new generator, including rmax_bits >= 1 exactly when its max is at least 1; the XOR gets 32 bits. |
| ChooseRng.XorOperands | dieharder/choose_rng.c:184-197 | After selecting the XOR, every operand i can be allocated from entry i+1 and is never the XOR itself. A file operand reads the file numbered by the count of file operands before it. |

## Left out

- The `choose_rng()` driver, `list_rngs`, `output_rnds`, `time_rng`, `select_XOR` and all `MYDEBUG`/`fprintf`/`printf` diagnostics. They are user interface, I/O and timing. `select_XOR` is a separate entry point outside the selection path modelled here.
- All floating point:
  - `psi_square`, `pow` and `sqrt`;
  - the gamma and Gaussian p-values and `Xtest_eval`;
  - `XOR_get_double`.
  Only the integer counts, bounds and slot layout are modelled.
- GSL and other foreign calls (`gsl_rng_alloc/set/get/free`, `file_input_alloc`, `random_seed`). Generators are abstract draw functions, and random seeds come in as a sequence.
- Memory management, including `malloc`/`calloc`/`free` and the `GSL_ERROR_VAL` allocation-failure branches of `XOR_rng_alloc`.
- The global `generator.rng` used as the etalon. It is an optional extra draw stream passed to `XorGet`, not shared state.
- The `exit()` paths. For `nbits > 32` in `get_rand_bits_uint`, the condition is a precondition. The Serial test's internal-error exit is kept as an outcome and proved unreachable.
- `cur_rng->read_buffer`, which `select_rng` resets, is a different object from the static buffer of `get_rand_bits_uint`. The model does not claim a generator switch empties the static buffer.
- `MAXRNGS` and `GVECMAX` are defined in headers that are not part of this model. The type table's length stands for `MAXRNGS`, and the length of the file-slot array stands for `GVECMAX`. `M` in the Bitstream test is also defined outside its file; its header gives 2^20, which is used here.
- ChooseRng.SelectRng: on failure the C code has already written partial results (resolved numbers, `MAXRNGS` for an unknown name, shifted seeds) into `params`. The model reports only the error and does not state those partial writes.
- ChooseRng.AssignSeeds: the declared seed count is taken as a non-negative count. With a declared count of 0 and a non-zero first seed, the C code's `params->gscount - 1` bound is not modelled as wrapping.
- GetBits.GetRandBits: draws are assumed to be below `2^rmax_bits`, as `rmax_bits` is defined to guarantee. A generator that breaks this is not modelled.
- GetBits.GetRandBits: requires `rmax_bits >= 1`, as do `NtupleFromUint` and the loops `Refill` and `WrapLoop`. In the C code a generator with `random_max == 0` gets `rmax_bits == 0`. Then `get_rand_bits_uint` with `nbits > 0` never returns, because each pass of its draw loop takes 0 from `nbits`, and `get_bit_ntuple_from_uint` divides by zero in `boffset % rmax_bits`. Neither behaviour is modelled. `ChooseRng.SelectRng` states that a selected generator has `rmax_bits >= 1` exactly when its max is at least 1.
- GetBits.NtupleFromUint: requires the draw to be below `2^rmax_bits`. The C code takes any `uint` and never masks the bits above `rmax_bits`, so such bits would survive the shift and be ORed into the window on the wrap path. Inputs with such bits are not modelled.
- GetBits.NtupleFromWholeUint: requires `boffset < 32`, as its callers pass it. The C code does not reduce `boffset`.
- StsSerial.SerialPass: the factor width `nb`, fixed at 16 in sts_serial.c, is generalised to any 1 <= nb < 32. That file's own comments rely on nb < 32 for the mask and the two-word splice.
- DiehardBitstream.MissingWords: requires `tsamples <= MaxSamples`, where every read is in bounds. Past that, the C code reads beyond its array, which is not modelled.
- ChooseRng.RmaxBits: the mask is computed as an unbounded number. It equals the C code's value whenever `random_max` is below 2^32; wider maxima are not modelled.

## Findings

| source | as written | input that shows it | evidently intended | confidence | as-written member | corrected member |
|---|---|---|---|---|---|---|
| dieharder/choose_rng.c:168-176 | The shift loop moves declared seeds 1 .. declared-1 into slots 0 .. declared-2, but the derivation loop starts at slot `params->gscount` (the declared count). Slot declared-1 is neither shifted nor derived, so it keeps the seed that was just copied into slot declared-2. | XOR of three generators (gscount 3) with the two seeds 5 and 7 (declared 2): slot 0 becomes 7, slot 1 stays 7, and slot 2 gets the first draw of generator 14 seeded with 5. Operands 0 and 1 run with the same seed. | Slot 0, the user's seed, is shifted out, and the missing operand seeds are derived from slot declared-1 on, so each operand gets its own seed. AssignSeeds and SelectRng keep the behaviour as written; SeedAfter is the corrected reference, equal to it when at most one seed is declared (SingleSeedAgrees). | medium; not executed | ChooseRng.RepeatedSeed | ChooseRng.DistinctSeeds |
