# big_int: a fixed-width two's-complement integer, modelled in Dafny

The repository's `big_int<size>` is an integer of `size` bytes, stored little-endian in a `std::array<u8, size>`. It is read as two's complement, and every operation wraps modulo 2^(8·size). This project models it as `BigInt(raw: seq<Byte>)`, a sequence of at least one byte, with two readings:

- `AsNat`, the unsigned value Σ raw[i]·256^i;
- `AsInt`, the signed value: `AsNat − 2^(8n)` when bit 7 of the top byte is set.

Every operation is proved against integer arithmetic modulo 2^(8n). The result is stated as `Encode(n, v)`, the n-byte cells of v mod 2^(8n), or through the readings directly.

The model covers:

- the byte-layout class in `include/big_int/big_int.hpp`;
- the bit helpers of `include/util.hpp`;
- the `numeric_limits` MIN/MAX constants;
- `mirror`, `clamp` and `midpoint` from `big_int_util.hpp`;
- the word-packed draft `include/big_int/big_int64.hpp`.

The word-packed draft holds the low `size / 8` bytes as `u64` words and the remaining `size % 8` bytes as a tail of `u8` cells above them. It is modelled as `WordInt(words, tail)`. `WordLayout.Abstract` reads a `WordInt` as the byte-layout `BigInt`, and that reading is the refinement map. Each corrected word-level operation proves `Abstract(op64(x)) == op(Abstract(x))`. Where the draft as written does something else, a concrete input shows it (see Findings).

Modules follow the source:

| module | file | content |
|---|---|---|
| `Arith`, `Bytes`, `Bits` | `arith.dfy`, `bytes.dfy`, `bits.dfy` | arithmetic facts, the little-endian reading of byte sequences, `~ & \| ^` on k-bit unsigned values |
| `Util` | `util.dfy` | `include/util.hpp` |
| `BigInts` | `big_int.dfy` | the storage, readings, sign, `== != < <= > >=`, `bool ! && \|\|` |
| `Bitwise` | `bitwise.dfy` | `~ & \| ^`, `flip_sign_bit`, `left_shift_once`, `right_shift_once` |
| `Arithmetic` | `arithmetic.dfy` | `+=`/`+`, `increment`/`decrement`, `negate`/unary `-`, `-=`/`-`, `abs` |
| `Counting`, `Shift` | `counting.dfy`, `shift.dfy` | the `big_int`-counted loops, and `<<=`/`>>=`/`<<`/`>>` |
| `Multiply` | `multiply.dfy` | `*`, `*=` |
| `Construct` | `construct.dfy` | `big_int(T)`, `operator=(T)`, `zero()`, `one()`, `big_int_init` |
| `Limits` | `limits.dfy` | `numeric_limits<big_int>::min/lowest/max` |
| `BigIntUtil` | `big_int_util.dfy` | `mirror`, `clamp`, `midpoint` |
| `WordLayout`, `WordArith`, `WordShift` | `word_*.dfy` | `big_int64.hpp` |

Binary operators take operands of one width, as the template does. Loops over a `big_int` counter (`for (big_int i = 0; i < k; ++i)`) run `max(0, AsInt(k))` times. `Counting.CountsTo` is the loop invariant of that counter.

## Model

| member | source | states |
|---|---|---|
| `Util.IsDigit` | include/util.hpp:11-14 | true exactly for the ten characters '0' to '9' |
| `Util.MostSignificantBit` | include/util.hpp:16-19 | the byte helper is 1 exactly when b ≥ 128 and 0 exactly when b < 128 |
| `Util.LeastSignificantBit` | include/util.hpp:26-29 | the byte helper is b mod 2 |
| `Util.LeastSignificantBitWord` | include/util.hpp:31-34 | the u64 helper is w mod 2 |
| `Util.MostSignificantBitWord` | include/util.hpp:21-24 | the u64 helper as written yields bits 31 to 38 of w, i.e. (w mod 2^39) / 2^31 |
| `Util.MostSignificantBitWordIsNotBit63` | include/util.hpp:21-24 | the as-written u64 helper gives 0 for 2^63 and 1 for 2^31, where bit 63 gives 1 and 0 |
| `Util.MostSignificantBitWordFixed` | include/util.hpp:21-24 | the intended u64 helper: 1 exactly when w ≥ 2^63, else 0 |
| `BigInts.AsIntRange` | include/big_int/big_int.hpp:545-548 | the signed reading of n bytes lies in [−2^(8n−1), 2^(8n−1)) |
| `BigInts.AsIntMod` | include/big_int/big_int.hpp:545-548 | the signed and unsigned readings agree modulo 2^(8n) |
| `BigInts.SignBitIsUpperHalf` | include/big_int/big_int.hpp:207-210 | the top byte is ≥ 128 exactly when the unsigned reading is in the upper half of the range |
| `BigInts.SameValueSameCells` | include/big_int/big_int.hpp:120-132 | two values of one width are equal as cells exactly when their signed readings are equal |
| `BigInts.Zero` | include/big_int/big_int.hpp:548 | the default-initialised (all-zero) value reads 0 |
| `BigInts.MostSignificantByteNoSign` | include/big_int/big_int.hpp:676-680 | the top byte with bit 7 cleared |
| `BigInts.IsNegative` | include/big_int/big_int.hpp:207-210 | true exactly when the signed reading is negative |
| `BigInts.Equal` | include/big_int/big_int.hpp:120-132 | true exactly when every byte is equal, and exactly when the signed readings are equal |
| `BigInts.NotEqual` | include/big_int/big_int.hpp:134-138 | true exactly when the signed readings differ |
| `BigInts.LessIsSignedOrder` | include/big_int/big_int.hpp:140-173 | the sign-bit, top-byte, then byte-by-byte comparison is the signed integer order |
| `BigInts.LessEq` | include/big_int/big_int.hpp:175-179 | `<=` is the signed `≤` |
| `BigInts.Greater` | include/big_int/big_int.hpp:181-185 | `>` is the signed `>` |
| `BigInts.GreaterEq` | include/big_int/big_int.hpp:187-191 | `>=` is the signed `≥` |
| `BigInts.Trichotomy` | sandbox/main.cpp:74-81 | exactly one of `a < b`, `a == b`, `b < a` holds |
| `BigInts.LessTransitive` | include/big_int/big_int.hpp:140-173 | `<` is transitive |
| `BigInts.NegativeBelowNonNegative` | include/big_int/big_int.hpp:143-147 | a negative value is below every non-negative one |
| `BigInts.ToBool` | include/big_int/big_int.hpp:513-523 | true exactly when some byte is non-zero, i.e. the value is not 0 |
| `BigInts.LogicalNot` | include/big_int/big_int.hpp:443-446 | `!x` is true exactly when x is the zero value |
| `BigInts.LogicalAnd` | include/big_int/big_int.hpp:448-452 | true exactly when both values are non-zero |
| `BigInts.LogicalOr` | include/big_int/big_int.hpp:454-458 | true exactly when either value is non-zero |
| `Bitwise.NotValue` | include/big_int/big_int.hpp:462-470 | `~x` complements every byte, and its signed reading is −x − 1 |
| `Bitwise.NotInvolution` | include/big_int/big_int.hpp:462-470 | `~~x == x` |
| `Bitwise.XorSelfIsZero` | include/big_int/big_int.hpp:488-494 | `x ^ x` is zero |
| `Bitwise.XorCancels` | include/big_int/big_int.hpp:345-352 | `(a ^ b) ^ b == a` |
| `Bitwise.ComplementPartition` | include/big_int/big_int.hpp:472-478 | `x & ~x` is zero and `x \| ~x` reads −1 |
| `Bitwise.NotAndIsOrNot` | include/big_int/big_int.hpp:480-486 | De Morgan: `~(a & b) == ~a \| ~b` |
| `Bitwise.BitwiseCommutative` | include/big_int/big_int.hpp:327-352 | `&`, `\|` and `^` are commutative |
| `Bitwise.FlipSignBit` | include/big_int/big_int.hpp:212-216 | only the top byte changes, by 128 modulo 256 |
| `Bitwise.FlipSignBitValue` | include/big_int/big_int.hpp:212-216 | the unsigned reading moves by half the range, modulo the range |
| `Bitwise.FlipSignBitSign` | include/big_int/big_int.hpp:212-216 | flipping the sign bit flips `is_negative` |
| `Bitwise.ShiftLeftCellsValue` | include/big_int/big_int.hpp:640-650 | the byte loop doubles the cells and adds the carry in, modulo the width |
| `Bitwise.ShiftLeftOnceValue` | include/big_int/big_int.hpp:640-650 | `left_shift_once` gives U' = 2U mod 2^(8n) |
| `Bitwise.ShiftRightCellsValue` | include/big_int/big_int.hpp:652-663 | the byte loop, top byte first, halves the cells with the carry in on top |
| `Bitwise.ShiftRightOnceValue` | include/big_int/big_int.hpp:652-663 | `right_shift_once` is logical: U' = ⌊U/2⌋ |
| `Bitwise.ShiftRightOnceClearsSign` | include/big_int/big_int.hpp:652-663 | after `right_shift_once` the value is not negative |
| `Arithmetic.AddCell` | include/big_int/big_int.hpp:263-281 | one byte step: the overflow flags mean what they say, are never both set, and cell + 256·carry-out = a + b + carry-in |
| `Arithmetic.AddCellsValue` | include/big_int/big_int.hpp:260-284 | the ripple-carry byte loop adds the unsigned readings and the carry in, modulo the width |
| `Arithmetic.Add` | include/big_int/big_int.hpp:365-370 | U(a + b) = (U(a) + U(b)) mod 2^(8n), and its signed reading is S(a) + S(b) wrapped |
| `Arithmetic.AddAssign` | include/big_int/big_int.hpp:260-284 | the in-place `+=` loop computes the same sum as `+` |
| `Arithmetic.IncCellsValue` | include/big_int/big_int.hpp:605-619 | the increment loop adds 1 modulo the width |
| `Arithmetic.IncCellsKeepsHigh` | include/big_int/big_int.hpp:605-619 | bytes above the first byte that is not 0xFF are left unchanged |
| `Arithmetic.DecCellsValue` | include/big_int/big_int.hpp:622-636 | the decrement loop subtracts 1 modulo the width |
| `Arithmetic.DecCellsKeepsHigh` | include/big_int/big_int.hpp:622-636 | bytes above the first non-zero byte are left unchanged |
| `Arithmetic.Increment` | include/big_int/big_int.hpp:231-236 | `++x` is S(x) + 1 wrapped |
| `Arithmetic.Decrement` | include/big_int/big_int.hpp:238-243 | `--x` is S(x) − 1 wrapped |
| `Arithmetic.IncrementExact` | include/big_int/big_int.hpp:231-236 | below MAX, `++x` reads exactly S(x) + 1 |
| `Arithmetic.DecrementExact` | include/big_int/big_int.hpp:238-243 | above MIN, `--x` reads exactly S(x) − 1 |
| `Arithmetic.IncrementDecrement` | include/big_int/big_int.hpp:231-258 | `++` and `--` undo each other, in both orders |
| `Arithmetic.Negate` | include/big_int/big_int.hpp:219-226 | complement-then-increment is −S(x) wrapped |
| `Arithmetic.NegateExact` | include/big_int/big_int.hpp:219-226 | for x ≠ MIN, `-x` reads exactly −S(x) |
| `Arithmetic.NegateMinimum` | include/big_int/big_int.hpp:219-226 | the negation of MIN is MIN |
| `Arithmetic.NegateInvolution` | include/big_int/big_int.hpp:358-363 | `-(-x) == x` |
| `Arithmetic.Sub` | include/big_int/big_int.hpp:286-290 | `a -= b` is S(a) − S(b) wrapped |
| `Arithmetic.AddNegated` | include/big_int/big_int.hpp:373-378 | `a + (-b)` is S(a) − S(b) wrapped |
| `Arithmetic.Abs` | include/big_int/big_int.hpp:198-204 | `abs` reads \|S(x)\| except at MIN, which it returns unchanged and negative |
| `Counting.CounterStep` | include/big_int/big_int.hpp:297-300 | after a round that `i < k` admits, `++i` keeps the loop invariant with one more round done |
| `Shift.ShiftLeftTimesValue` | include/big_int/big_int.hpp:292-303 | t single-bit left shifts multiply the unsigned reading by 2^t, modulo the width |
| `Shift.ShiftRightTimesValue` | include/big_int/big_int.hpp:305-316 | t single-bit right shifts divide the unsigned reading by 2^t |
| `Shift.ShiftRightClearsSign` | include/big_int/big_int.hpp:305-316 | one or more right shifts leave a non-negative value |
| `Shift.ShiftLeft` | include/big_int/big_int.hpp:496-502 | `x << k` is x unchanged when S(k) ≤ 0 |
| `Shift.ShiftLeftValue` | include/big_int/big_int.hpp:496-502 | for S(k) > 0, U(x << k) = U(x)·2^S(k) mod 2^(8n) |
| `Shift.ShiftRight` | include/big_int/big_int.hpp:504-510 | `x >> k` is x unchanged when S(k) ≤ 0 |
| `Shift.ShiftRightValue` | include/big_int/big_int.hpp:504-510 | for S(k) > 0, U(x >> k) = ⌊U(x) / 2^S(k)⌋, and the result is not negative |
| `Shift.ShiftLeftAssign` | include/big_int/big_int.hpp:292-303 | for a shift amount that is not x itself, the `<<=` loop with its `big_int` counter computes `x << k` |
| `Shift.ShiftRightAssign` | include/big_int/big_int.hpp:305-316 | for a shift amount that is not x itself, the `>>=` loop with its `big_int` counter computes `x >> k` |
| `Shift.ShiftLeftSelf` | include/big_int/big_int.hpp:292-303 | `x <<= x`, where the loop bound is x as it is being shifted: the loop always ends, and it ends at the first round whose counter is not below the value shifted so far |
| `Shift.ShiftRightSelf` | include/big_int/big_int.hpp:305-316 | `x >>= x`: the loop always ends, and it ends at the first round whose counter is not below the value shifted so far |
| `Shift.LeftSelfOfOne` | include/big_int/big_int.hpp:292-303 | `x <<= x` from 1 runs 8n − 1 rounds and leaves MIN, where `1 << 1` is 2 |
| `Shift.RightSelfOfThree` | include/big_int/big_int.hpp:305-316 | `x >>= x` from 3 runs one round and leaves 1, where `3 >> 3` is 0 |
| `Shift.ShiftOneByThree` | sandbox/main.cpp:83-85 | `one << 3` reads 8, `one >> 3` reads 0 and `one >> 0` is one |
| `Multiply.AddTimesValue` | include/big_int/big_int.hpp:413-418 | t rounds of `res += a` from 0 give S(a)·t wrapped |
| `Multiply.Magnitude` | include/big_int/big_int.hpp:411 | `abs_other` is other when non-negative, −other when negative above MIN, and MIN itself for MIN |
| `Multiply.LoopCountOfMagnitude` | include/big_int/big_int.hpp:413-418 | the loop runs \|S(other)\| times, but zero times for MIN |
| `Multiply.TimesValue` | include/big_int/big_int.hpp:381-425 | for other ≠ MIN, `a * other` is S(a)·S(other) wrapped |
| `Multiply.TimesMinimum` | include/big_int/big_int.hpp:381-425 | for other == MIN, `a * other` is 0 |
| `Multiply.TimesMinimumIsWrong` | include/big_int/big_int.hpp:409-418 | at four bytes, `1 * MIN` gives 0 where the wrapped product is MIN |
| `Multiply.TimesUnsignedValue` | include/big_int/big_int.hpp:381-425 | counting the loop on the unsigned magnitude gives S(a)·S(other) wrapped for every other |
| `Multiply.TimesAgree` | include/big_int/big_int.hpp:381-425 | off MIN, the corrected and the as-written products coincide |
| `Multiply.MultiplyAssign` | include/big_int/big_int.hpp:409-424 | the repeated-addition loop with its `big_int` counter computes `a * other` |
| `Construct.InitLoopDiverges` | include/big_int/big_int.hpp:586-595 | from a magnitude of 2 or more, the loop never reaches 0, whatever the fuel |
| `Construct.InitDiverges` | include/big_int/big_int.hpp:552-600 | construction from any \|v\| ≥ 3 does not terminate |
| `Construct.InitSmall` | include/big_int/big_int.hpp:552-600 | for −2 ≤ v ≤ 2, `big_int_init` adds v to the old value, or negates the old value minus v when v < 0 |
| `Construct.ConstructSmall` | include/big_int/big_int.hpp:102-105 | the constructor gives exactly v for −2 ≤ v ≤ 2 |
| `Construct.ConstructAgrees` | include/big_int/big_int.hpp:552-600 | the constructor terminates exactly for −2 ≤ v ≤ 2, and then equals sign extension |
| `Construct.ZeroFactory` | include/big_int/big_int.hpp:534-537 | `zero()` is the all-zero value |
| `Construct.OneFactory` | include/big_int/big_int.hpp:539-542 | `one()` reads 1 |
| `Construct.AssignAccumulates` | include/big_int/big_int.hpp:108-112 | `x = 0` keeps x and `x = 1` increments it, so 1 assigned over 1 gives 2 |
| `Construct.FromIntValue` | test/test.cpp:44-60 | sign extension of v is v modulo 2^(8n) |
| `Construct.FromIntExact` | include/big_int/big_int64.hpp:661-680 | filling the upper cells with ones exactly when v < 0 reads back v when T is signed or narrower than the big_int |
| `Construct.FromIntUnsignedWraps` | include/big_int/big_int.hpp:552-557 | an unsigned T as wide as the big_int with v ≥ 2^(8n−1) reads v − 2^(8n) |
| `Limits.Min` | include/big_int/big_int_std_integration.hpp:141-146 | `cached_min` (returned by `min()` and `lowest()`) reads −2^(8n−1) |
| `Limits.Max` | include/big_int/big_int_std_integration.hpp:148-153 | `cached_max` reads 2^(8n−1) − 1 |
| `Limits.MinCells` | include/big_int/big_int_std_integration.hpp:141-146 | MIN is all zero bytes but a top byte of 0x80 |
| `Limits.MaxCells` | include/big_int/big_int_std_integration.hpp:148-153 | MAX is all 0xFF bytes but a top byte of 0x7F |
| `Limits.Bounds` | include/big_int/big_int_std_integration.hpp:69-82 | every value x satisfies MIN ≤ x ≤ MAX |
| `Limits.LimitsOrder` | sandbox/main.cpp:74-76 | MIN < MAX, !(MAX < MAX), !(MAX < MIN) |
| `Limits.MaxPlusOne` | sandbox/main.cpp:121-123 | MAX + 1 == MIN, by `++` and by `+` |
| `Limits.MinMinusOne` | sandbox/main.cpp:134-136 | MIN − 1 == MAX, by `--` and by `-` |
| `Limits.MinPlusMax` | sandbox/main.cpp:63 | MIN + MAX reads −1 |
| `Limits.MinMinusMax` | sandbox/main.cpp:64 | MIN − MAX reads 1 |
| `Limits.MaxMinusMin` | sandbox/main.cpp:67 | MAX − MIN reads −1 |
| `Limits.NegateMin` | include/big_int/big_int_std_integration.hpp:141-146 | `-MIN == MIN` |
| `BigIntUtil.ReverseIndex` | include/big_int/big_int_util.hpp:79-82 | byte i of the reversal is byte n − 1 − i |
| `BigIntUtil.Mirror` | include/big_int/big_int_util.hpp:75-84 | the loop builds the byte reversal of num |
| `BigIntUtil.ReverseInvolution` | include/big_int/big_int_util.hpp:75-84 | reversing twice gives the bytes back |
| `BigIntUtil.MirrorTwice` | include/big_int/big_int_util.hpp:75-84 | `mirror(mirror(x)) == x` |
| `BigIntUtil.Clamp` | include/big_int/big_int_util.hpp:92-104 | callers must give low < high, as the `assert` demands; then `low` when num < low, `high` when not and num > high, num otherwise |
| `BigIntUtil.ClampBounds` | include/big_int/big_int_util.hpp:92-104 | given low < high, low ≤ clamp ≤ high |
| `BigIntUtil.ClampIdempotent` | include/big_int/big_int_util.hpp:92-104 | clamping a clamped value changes nothing |
| `BigIntUtil.MidpointValue` | include/big_int/big_int_util.hpp:19-26 | `midpoint(a, b)` reads ⌊U(a)/4⌋ + ⌊U(b)/4⌋ |
| `BigIntUtil.MidpointTakesQuarters` | include/big_int/big_int_util.hpp:23-25 | `midpoint(4, 4)` is 2, not 4 |
| `BigIntUtil.MidpointHalvesValue` | include/big_int/big_int_util.hpp:19-26 | with shifts by 1, the midpoint of non-negative a, b is ⌊a/2⌋ + ⌊b/2⌋, within 1 of ⌊(a+b)/2⌋; `>>` is a logical shift, so for negative inputs even the corrected form is not a midpoint |
| `BigIntUtil.MidpointHalvesOfEqual` | include/big_int/big_int_util.hpp:19-26 | with shifts by 1, `midpoint(4, 4)` is 4 |
| `WordLayout.AbstractValue` | include/big_int/big_int64.hpp:12-27 | the layout reads as the words' value plus the tail's value times 2^(64·words) |
| `WordLayout.AbstractInjective` | include/big_int/big_int64.hpp:37-45 | two layouts of one size with equal byte readings are equal |
| `WordLayout.SameValueSameLayout` | include/big_int/big_int64.hpp:37-45 | two layouts of one size with the same value are equal |
| `WordLayout.Zero64` | include/big_int/big_int64.hpp:52 | the default (all-zero) layout reads as the byte layout's zero |
| `WordLayout.MostSignificantByte64` | include/big_int/big_int64.hpp:96-108 | the last tail cell, or the top byte of the last word, is the byte layout's top byte |
| `WordLayout.MostSignificantByteNoSign64` | include/big_int/big_int64.hpp:110-113 | agrees with the byte layout's top byte without its sign bit |
| `WordLayout.IsNegative64` | include/big_int/big_int64.hpp:89-92 | agrees with the byte layout and is true exactly when the value is negative |
| `WordLayout.Equal64` | include/big_int/big_int64.hpp:120-144 | true exactly when all words and cells are equal, and exactly when the values are equal |
| `WordLayout.TailFirstOrder` | include/big_int/big_int64.hpp:166-190 | comparing tail cells top down and then words top down is the unsigned order |
| `WordLayout.Less64NarrowTail` | include/big_int/big_int64.hpp:151-199 | with at most one tail cell, the as-written `<` agrees with the byte layout's `<` |
| `WordLayout.Less64IsWrong` | include/big_int/big_int64.hpp:166-190 | at size 10, a = 1 (words [1], tail [0, 0]) and b = 2^64 (words [0], tail [1, 0]): the as-written `a < b` is false, while the byte layout's `<` and the corrected one are true |
| `WordLayout.Less64FixedRefines` | include/big_int/big_int64.hpp:151-199 | the corrected `<` agrees with the byte layout's `<` and is the signed order |
| `WordLayout.ToBool64` | include/big_int/big_int64.hpp:631-647 | `bool` agrees with the byte layout and is true exactly when the value is not 0 |
| `WordLayout.Not64` | include/big_int/big_int64.hpp:437-456 | complementing every word and cell is the byte layout's `~` |
| `WordLayout.NotWordsValue` | include/big_int/big_int64.hpp:441-445 | complemented words read 2^(64k) − 1 minus the words' value |
| `WordLayout.FlipSignBit64` | include/big_int/big_int64.hpp:224-237 | flipping bit 7 of the last cell, or bit 63 of the last word, is the byte layout's `flip_sign_bit` |
| `WordLayout.FlipWordRefines` | include/big_int/big_int64.hpp:233-236 | XOR of bit 63 into the top word of a tail-less layout flips the byte layout's sign bit |
| `WordLayout.Min64` | include/big_int/big_int64.hpp:795-800 | the draft's `cached_min` reads as the byte layout's MIN |
| `WordLayout.Max64` | include/big_int/big_int64.hpp:802-807 | the draft's `cached_max` reads as the byte layout's MAX |
| `WordLayout.LimitsValue64` | include/big_int/big_int64.hpp:717-733 | the draft's MIN reads −2^(8·size−1), MAX reads 2^(8·size−1) − 1, and MIN < MAX |
| `WordArith.AddWord` | include/big_int/big_int64.hpp:502-521 | one word step: the sum-overflow flag means a + b ≥ 2^64, the two flags are never both set, and word + 2^64·carry-out = a + b + carry-in |
| `WordArith.AddWordsValue` | include/big_int/big_int64.hpp:499-522 | the word loop adds the words' values and the carry in, with the carry out weighing 2^(64k) |
| `WordArith.Add64` | include/big_int/big_int64.hpp:495-551 | the words, then the tail from the words' carry, give the byte layout's `+` |
| `WordArith.Sub64` | include/big_int/big_int64.hpp:553-557 | `a + (-b)` on the layout is the byte layout's `-` |
| `WordArith.IncWordsValue` | include/big_int/big_int64.hpp:272-280 | the do-while adds 1 to the words, with the carry out weighing 2^(64k) |
| `WordArith.Increment64` | include/big_int/big_int64.hpp:270-299 | the words, then the tail on a carry, give the byte layout's `increment` |
| `WordArith.DecWordsValue` | include/big_int/big_int64.hpp:304-312 | the do-while subtracts 1 from the words, with the borrow out weighing 2^(64k) |
| `WordArith.Decrement64` | include/big_int/big_int64.hpp:302-331 | the words, then the tail on a borrow, give the byte layout's `decrement` |
| `WordArith.IncrementDecrement64` | include/big_int/big_int64.hpp:334-346 | `++` and `--` on the layout undo each other, in both orders |
| `WordArith.Negate64` | include/big_int/big_int64.hpp:240-256 | complementing every word and cell and incrementing is the byte layout's `negate` |
| `WordArith.Abs64` | include/big_int/big_int64.hpp:259-265 | negating when negative is the byte layout's `abs` |
| `WordArith.Init64Refines` | include/big_int/big_int64.hpp:652-681 | `big_int_init` on the zero layout is sign extension: v modulo 2^(8·size) |
| `WordArith.Init64Value` | include/big_int/big_int64.hpp:652-681 | the constructed layout's unsigned reading is v mod 2^(8·size) |
| `WordArith.Factories64` | include/big_int/big_int64.hpp:72-80 | `zero()` is the byte layout's zero and `one()` reads 1 |
| `WordArith.AssignNegative64` | include/big_int/big_int64.hpp:63-68 | assigning a negative v overwrites every cell, so the result is as if constructed |
| `WordArith.AssignNonNegative64` | include/big_int/big_int64.hpp:63-68 | assigning v ≥ 0 gives the constructed value exactly when the words above word 0 and the tail were already zero |
| `WordArith.Assign64Keeps` | include/big_int/big_int64.hpp:661-666 | at size 16, `x = -1; x = 5` leaves word 1 all ones, so x differs from `big_int(5)` |
| `WordShift.ShiftLeftWordsValue` | include/big_int/big_int64.hpp:366-377 | the corrected word loop doubles the words and adds the carry in, the carry out weighing 2^(64k) |
| `WordShift.ShiftLeft64Value` | include/big_int/big_int64.hpp:366-388 | the corrected layout's unsigned reading is 2U mod 2^(8·size) |
| `WordShift.ShiftLeft64` | include/big_int/big_int64.hpp:366-388 | with bit 63 as the carry, `left_shift_once` is the byte layout's |
| `WordShift.ShiftLeft64IsWrong` | include/big_int/big_int64.hpp:371 | at size 16, words [2^31, 0] shift to [2^32, 1] as written where [2^32, 0] is right |
| `WordShift.ShiftRightWordsValue` | include/big_int/big_int64.hpp:390-401 | the corrected word loop halves the words with the carry in at bit 63 |
| `WordShift.ShiftRight64` | include/big_int/big_int64.hpp:390-413 | tail first with its low bit into bit 63 of the top word, `right_shift_once` is the byte layout's |
| `WordShift.ShiftRight64DropsTailBit` | include/big_int/big_int64.hpp:394-413 | at size 9, 2^64 shifts to 0 as written because the tail goes last, where 2^63 is right |
| `WordShift.ShiftRight64SetsSignBit` | include/big_int/big_int64.hpp:394-413 | at size 9, 1 shifts to MIN as written because word 0's low bit is carried into bit 7 of the top tail cell, where 0 is right |
| `WordShift.ShiftRight64CarriesToBit7` | include/big_int/big_int64.hpp:399 | at size 16, 2^64 shifts to 128 as written where 2^63 is right |
| `WordShift.ShiftLeftTimes64` | include/big_int/big_int64.hpp:458-472 | t corrected left shifts of the layout are t left shifts of the byte layout |
| `WordShift.ShiftRightTimes64` | include/big_int/big_int64.hpp:474-488 | t corrected right shifts of the layout are t right shifts of the byte layout |
| `WordShift.ShiftLeftBy64Value` | include/big_int/big_int64.hpp:458-472 | the corrected `x << k` (corrected loop counter and corrected single shift) multiplies U(x) by 2^S(k) modulo the size for S(k) > 0, and keeps x otherwise |
| `WordShift.ShiftRightBy64Value` | include/big_int/big_int64.hpp:474-488 | the corrected `x >> k` (corrected loop counter and corrected single shift) divides U(x) by 2^S(k) for S(k) > 0, and keeps x otherwise |

## Left out

- I/O and trait plumbing: the stream `operator<<`, `std::hash`, `std::common_type`, and the `numeric_limits` fields other than `min`, `max` and `lowest`.
- Declared-only operations, which have no body to model: `/=`, `%=`, `/` and `%` (their bodies only call the declared `/=` and `%=`), `to_string`/`from_string`, and gcd, lcm, log, exp, pow, rotl, rotr, popcnt, fact and fib in `big_int_util.hpp`.
- The `_bi` literal parser. It is macro-gated and exception-based, and its digit step goes through the non-terminating integer constructor. `Util.IsDigit`, which it calls, is modelled.
- `is_bit_set` is used only by commented-out code.
- `static_assert` type-trait checks and `#pragma pack` are C++ type-system facts.
- The postfix `++`/`--` return the old copy and then do the prefix operation; only the prefix operation is modelled. Unary `+` is the identity.
- `&=`, `|=`, `^=` are modelled by the same functions as `&`, `|`, `^`. C++ value semantics make "the operands are unchanged" hold by construction.
- Cost is not modelled: the repeated-addition multiply and the linear-count shifts are modelled faithfully, with no claim about running time.
- The draft `big_int64.hpp` does not compile as written: its base list names `void` when `size % 8 == 0`, and `&`, `|`, `^` use the undeclared `paddin_u8_bytes`. The model assumes the evident intent: no tail base, and `padding_u8_count`.
- The draft's `&`, `|` and `^` are not modelled. They are the byte-wise operations of `big_int.hpp` on a different grouping of the same bytes.
- The draft's word-level operations with a `do`-`while` or a `[0]` access (`increment`, `decrement`, `negate`, `-`, `big_int_init`) require at least one word, i.e. `size >= 8`. Below that, the source reads word 0 of an empty array.
- The draft's `<<` and `>>` count their loop with the draft's own `<` and shift with the draft's own `left_shift_once`/`right_shift_once`, all three wrong (see Findings). `WordShift.ShiftLeftBy64` and `WordShift.ShiftRightBy64` count with the corrected `<`, i.e. `max(0, S(k))` rounds, and shift with the corrected single shifts `WordShift.ShiftLeft64`/`WordShift.ShiftRight64`. So `WordShift.ShiftLeftBy64Value` and `WordShift.ShiftRightBy64Value` state the corrected operators; the draft as written gives 2^32 + 2^64 for `2^31 << 1` at 16 bytes, one round of the single shift of `WordShift.ShiftLeft64IsWrong`.
- `Construct.InitAsWritten`: the non-terminating `big_int_init` loop is modelled with a `fuel` bound. `None` means the fuel ran out, and `Construct.InitDiverges` proves it runs out for every fuel when |v| ≥ 3.
- `Construct.Magnitude`: `detail::abs` of the most negative value of a signed `T` overflows `T` (undefined behaviour in C++). The model uses the mathematical magnitude. The loop does not end from there either way.
- The byte-level `Multiply.Times` and `BigIntUtil.Midpoint` require at least four bytes. The source builds their `big_int` constants from `int`, and `big_int_init` statically requires `size >= sizeof(T)`.
- `BigIntUtil.Clamp` requires low < high, as the `assert` at the head of `clamp` does. What a build without assertions returns for low ≥ high is not modelled.
- `Construct.FromIntExact` follows the `a < 0` fill of `big_int64.hpp`. The commented-out `sign_extend_into` of `big_int.hpp` fills from the top bit of the source's top byte instead. The two differ for an unsigned `T` whose top bit is set: `u8(200)` into two bytes reads −56 by that rule and 200 here. The helper is dead code, so the model does not follow it.
- `Construct.IntType` models a native integral type by its width and signedness only. `Fits` limits the draft's `T` to eight bytes, as its `u64` word 0 does.

## Findings

| source | as written | input that shows it | evidently intended | confidence | as-written member | corrected member |
|---|---|---|---|---|---|---|
| include/big_int/big_int.hpp:586-595 | an even magnitude runs `a /= T(a / T(2))`, which turns every even a ≥ 2 into 2 and never reaches 0 | `big_int<4>(3)`: after one increment a = 2, and 2 / (2 / 2) = 2 forever | the value written into the cells with the upper cells filled with ones exactly when it is negative, as `big_int64.hpp`'s `big_int_init` does and the tests expect | not executed | `Construct.InitDiverges` | `Construct.FromIntValue` |
| include/big_int/big_int.hpp:409-418 | the loop bound is `abs_other = -other`, and the negation of MIN is MIN, so the loop runs zero times | `big_int<4>(1) * MIN` gives 0 | S(a)·S(other) modulo 2^(8n), which is MIN here | not executed | `Multiply.TimesMinimumIsWrong` | `Multiply.TimesUnsignedValue` |
| include/util.hpp:21-24 | `u8((wide >> 24) >> 7)` keeps bits 31 to 38 | `most_significant_bit(u64(1) << 63)` gives 0, and `most_significant_bit(u64(1) << 31)` gives 1 | bit 63 of the word | not executed | `Util.MostSignificantBitWordIsNotBit63` | `Util.MostSignificantBitWordFixed` |
| include/big_int/big_int64.hpp:371 | `left_shift_once` carries `most_significant_bit(u64)` of each word into the next word | size 16, words [2^31, 0]: the result is [2^32, 1] | [2^32, 0], which is 2U mod 2^128 | not executed | `WordShift.ShiftLeft64IsWrong` | `WordShift.ShiftLeft64` |
| include/big_int/big_int64.hpp:394-413 | `right_shift_once` shifts the words before the more significant tail, so the tail's low bit is lost, and word 0's low bit is carried into bit 7 of the top tail cell, the sign bit | size 9, the value 2^64 (word 0 is 0, tail cell is 1): the result is 0 | 2^63 | not executed | `WordShift.ShiftRight64DropsTailBit` | `WordShift.ShiftRight64` |
| include/big_int/big_int64.hpp:394-413 | the carry out of word 0 goes into the top tail cell at bit 7, the sign bit | size 9, the value 1 (word 0 is 1, tail cell is 0): the result is MIN | 0 | not executed | `WordShift.ShiftRight64SetsSignBit` | `WordShift.ShiftRight64` |
| include/big_int/big_int64.hpp:399 | `right_shift_once` ORs `carry << 7` into a word, i.e. at bit 7 | size 16, the value 2^64 (words [0, 1]): the result is 128 | `carry << 63`, giving 2^63 | not executed | `WordShift.ShiftRight64CarriesToBit7` | `WordShift.ShiftRight64` |
| include/big_int/big_int64.hpp:166-190 | after equal signs and top bytes, `<` compares the words before the more significant tail cells | size 10: a has words [1], tail [0, 0]; b has words [0], tail [1, 0]. `a < b` gives false, though a = 1 and b = 2^64 | compare the tail cells first, then the words | not executed | `WordLayout.Less64IsWrong` | `WordLayout.Less64FixedRefines` |
| include/big_int/big_int_util.hpp:23-25 | `midpoint` adds `a >> 2` and `b >> 2`: quarters, not halves | `midpoint(4, 4)` gives 2 | `a >> 1` and `b >> 1`, giving 4 | not executed | `BigIntUtil.MidpointTakesQuarters` | `BigIntUtil.MidpointHalvesValue` |
| include/big_int/big_int.hpp:108-112 | `operator=(T)` runs `big_int_init` on the old cells, which increments from their old value | x holding 1, then `x = 1`: x holds 2 | reset to the sign extension of the assigned value | not executed | `Construct.AssignAccumulates` | `Construct.FromIntValue` |
| include/big_int/big_int64.hpp:661-666 | `big_int_init` writes only word 0 for a non-negative value, so `operator=` keeps the old higher words | size 16, `x = -1; x = 5`: words [5, 2^64 − 1] | words [5, 0] | not executed | `WordArith.Assign64Keeps` | `WordArith.Init64Refines` |
