# Verified models of the emulator's floating point, AES, exclusive monitor and FXSAVE code

ish-AOK runs guest programs of several architectures in user space. Much of its
work is arithmetic that must agree bit for bit with hardware. This project
models the parts of it that are hardest to get right and proves what they
promise, for every input and every run:

- **The soft-float x87** (`emu/float80.c`). Numbers have exact values in the
  reals (`Float80s`), and one function, `Rounding.Round`, says what rounding a
  real into a format delivers and raises; `Rounding.RoundOptimal` shows that no
  number of the format does better. Addition, subtraction, multiplication,
  division, square root, scaling and the conversions are all proved to deliver
  `Round` of the exact result, with the right precision (PE), direction (C1),
  overflow and underflow flags, in all four modes and at every precision the
  control word can ask for. The thread-local rounding state is the class
  `Normalize.Env`.
- **The fast paths** for normal operands, proved to answer exactly when they
  should and to agree with the general code, down to the division built from a
  64-by-64 divide with wrapping arithmetic.
- **The remainders** FPREM and FPREM1, exact by repeated scaled subtraction.
- **The floating-point environment** (`emu/fpenv.c`): flags are folded from the
  host FPSR into the guest's register lazily, and that is proved equal, over any
  run, to charging every operation's flags at once.
- **The AES round** (`emu/avx.c`): multiplication in GF(2^8) with its field
  laws, and the equivalent inverse cipher over any number of rounds.
- **LDXR, STXR and CAS** (`emu/arm64_interp.c`), with the instructions of any
  number of CPUs interleaved in any order.
- **The FXSAVE area** (`emu/fxsave.h`), a round trip through a rotating register
  stack.

## How the pieces fit

`Powers` has shifts and scaling by powers of two. `Rounding` is the reference.
`StickyBits` says when an integer *stands for* a real number as far as rounding
can see, and proves which shifts keep it so; this is what lets a 128-bit
significand with a sticky bit be rounded in place of an exact sum, quotient or
root. `Float80s` has the encodings, `Normalize` the one routine through which
every result is rounded, `Operands` the NaN rules. One module per operation
follows: `Addition`, `Multiplication`, `SquareRoot`, `FastDivision`,
`FastPaths`, `FastAgreement`, `Exactness`, `Integers`, `Ieee`,
`IeeeUnderflow`, `Scaling`, `Comparison`, `Remainder`. `Words` represents
registers whose bits are only moved about as sets of bits; `LazyFlags` and
`Fpenv`, and `Fxsave`, are built on it. `Gf256`, `AesTables` and `Aes` are the
cipher; `Exclusive` and `ExclusiveRuns` the monitor.

The definitions the theorems are stated in are themselves pinned down. Lemmas
named `...InNumbers` give encodings, register bits, matrices and codes as
numerals, and `LoadExclusiveFully`, `StoreExclusiveFully`,
`CompareAndSwapFully`, `LastRoundBytes` and `RoundBytes` say what an instruction
or a round does to every register and byte.

Where a promise is not kept by the code in every case, the model follows the
code, shows an input that breaks the promise, and proves exactly when it holds:

- A rounding shift by all 128 bits loses a half bit when rounding to nearest
  (`Integers.ShiftRoundExactly`, `Integers.ShiftOf128LosesHalf`). No caller
  shifts a 128-bit significand that far, and 64-bit ones are always right
  (`Integers.ShiftRoundSignificand`).
- A sticky shift followed by a rounding shift of a single bit can round twice
  (`StickyBits.OneBitRoundsOnceIff`, `StickyBits.OneBitIsNotEnough`); with two
  bits or more it never does.
- `f80_lt` subtracts through the rounding path, so under reduced precision a
  difference can round to zero (`Comparison.Lt`, `Comparison.RoundsToZeroIff`,
  `Comparison.SmallDifferenceLost`).
- `f80_to_ieee` judges underflow on the delivered result, where its comment and
  the x87 have a tiny inexact one. They differ exactly for operands in a gap just
  below the smallest normal, a quarter of the last subnormal place wide to
  nearest and a half away from zero (`IeeeUnderflow.UnderflowJudged`,
  `IeeeUnderflow.ToIeeeJudged`, `IeeeUnderflow.UnderflowMissed`).
- Flags left in the host FPSR are charged wrongly when a register is replaced by
  one that has underflow and flush-to-zero without precision (x86), or VX
  without VXSOFT (PowerPC), and only then (`LazyFlags.SafeExactly`).
- The host rounds in the direction the guest's register asks for except exactly
  for RISC-V's ties-to-magnitude and reserved codes, which round to nearest even
  (`LazyFlags.ControlRounds`).
- The comment on STXR promises failure when the word has changed since the LDXR.
  The monitor compares values, so a word changed and changed back passes
  (`ExclusiveRuns.ChangedAndChangedBack`); success depends on the address, on the
  value at the store and on the word being writable, and on nothing else
  (`Exclusive.StoreSucceedsIff`).

In `f80_add` the tests for infinities after line 688 and the chop-mode repair at
lines 741-742 cannot apply: infinities have returned by then, and the sticky
shift never turns a nonzero significand into zero. The model leaves them out.

## Model

| member | source | states |
|---|---|---|
| `Rounding.RoundIntOptimal` | emu/float80.c:42-97 | In directed modes the rounded integer is the closest on its side; to nearest it is the closest of all, even on a tie, and never a unit away |
| `Rounding.RoundIntDirected` | emu/float80.c:42-97 | On the number line, sign included: up never goes down, down never up, chop never away from zero, each by less than one, and nearest by at most a half |
| `Rounding.RoundOptimal` | emu/float80.c:197-286 | What the reference rounding delivers is optimal: a finite result is the closest number of the format on its side in a directed mode and the closest of all to nearest, even on a tie, also when it is the largest number after an overflow; infinity is delivered only past every number of the format, or past halfway to the next power of two |
| `Rounding.RoundDirected` | emu/float80.c:197-286 | The number delivered lies on the side of the exact one its mode names; inexact and grown are said of it truly, overflow included; infinity only in the modes and for the signs that allow it |
| `StickyBits.RoundShiftCorrect` | emu/float80.c:50-97 | Rounding an integer that stands for a real on its guard and remaining bits gives the integer the real itself rounds to; inexact and rounded-up are right too |
| `StickyBits.RoundShiftExact` | emu/float80.c:50-97 | A rounding shift is exact division by the power of two, rounded, with the right inexactness and direction |
| `StickyBits.StandsSticky` | emu/float80.c:99-109 | A sticky shift keeps an integer standing for the same real, scaled, while one bit is left below the rounding point |
| `StickyBits.NoDoubleRounding` | emu/float80.c:50-109 | A sticky shift by any amount and a rounding shift by two or more give the same integer, inexactness and direction as one rounding of the whole distance |
| `StickyBits.OneBitRoundsOnceIff` | emu/float80.c:50-109 | With a single bit left for the rounding shift the two shifts agree with one if and only if rounding is not to nearest, nothing was lost, or the last two bits kept are equal |
| `StickyBits.OneBitIsNotEnough` | emu/float80.c:50-109 | An input on which they do not agree |
| `Float80s.UniqueEncoding` | emu/float80.c:125-131 | Supported encodings of the same sign and magnitude are the same bits |
| `Float80s.X87InNumbers` | emu/float80.c:14-32 | A finite encoding is worth its 64-bit significand times 2^(exponent field - 16446), a field of 0 counting as 1; the format has exponents -16382 to 16383 |
| `Float80s.OneInNumbers` | emu/float80.c:16-22 | 1 has exponent field 0x3fff and only the integer bit |
| `Float80s.ClassesInNumbers` | emu/float80.c:125-148 | Supported, NaN, infinity, signalling, denormal and zero, by the bits they are told from |
| `Float80s.SpecialsInNumbers` | emu/float80.h:101-108 | The special encodings bit for bit |
| `Float80s.MadeNaNsQuiet` | emu/float80.h:101-107 | The two NaNs the code makes up are quiet |
| `Normalize.Env.constructor` | emu/float80.c:36-40 | A thread starts rounding to nearest at 64 bits with no flag up |
| `Normalize.PrecisionInNumbers` | emu/float80.c:190-195 | Precisions from 24 to 64 bits are used as they are, any other counts as 64 |
| `Normalize.Clz128Bounds` | emu/float80.c:176-188 | The leading-zero count places the significand between two powers of two |
| `Normalize.ShiftRightRound` | emu/float80.c:50-97 | The result is the rounding shift, and the two sticky flags gain exactly "a bit was lost" and "the result is larger" |
| `Normalize.OverflowResult` | emu/float80.c:197-215 | Overflow delivers infinity or the largest number of the precision in use, by mode and sign, with OE, PE and C1 as the reference has them |
| `Normalize.DecideTiny` | emu/float80.c:227-246 | Tininess after rounding with unbounded exponent is decided from the bits, and every flag is as it was |
| `Normalize.RoundToPrecision` | emu/float80.c:259-281 | An aligned significand is delivered as the outcome its bits give: subnormals, the carry into the smallest normal, the carry past the largest exponent |
| `Normalize.StaysTiny` | emu/float80.c:233-246 | The look-ahead just below the smallest normal decides tininess after rounding without touching the flags |
| `Normalize.RoundForetold` | emu/float80.c:217-286 | Everything the routine decides from the bits is what the reference says of the exact value those bits stand for |
| `Normalize.RoundDetermined` | emu/float80.c:217-286 | Two reals with the same stand-in have the same outcome in every mode |
| `Normalize.NormalizeRoundBits` | emu/float80.c:217-286 | The routine delivers the foretold outcome and raises exactly it, keeping the caller's PE |
| `Normalize.NormalizeRound` | emu/float80.c:217-286 | For any significand, exponent, sign, mode and precision, the correctly rounded value in a supported encoding; PE iff inexact, C1 iff grown, OE iff overflow, UE iff inexact and tiny after rounding with unbounded exponent |
| `Operands.HandleNaNs` | emu/float80.c:507-526 | Unsupported operands are invalid; otherwise a NaN operand comes out quieted, which one being decided by the signs, and is invalid iff one signalled |
| `Operands.QuietInNumbers` | emu/float80.c:514-515 | Quieting sets bit 62 of the significand and nothing else |
| `Operands.ChosenNaN` | emu/float80.c:520-525 | Of two NaNs of different signs the positive one comes out, otherwise the first; payload and sign are its own |
| `Addition.Add` | emu/float80.c:670-773 | The correctly rounded exact sum for all finite operands; exact cancellation gives +0, or -0 rounding down; infinities and NaNs as the hardware |
| `Addition.Sub` | emu/float80.c:774-776 | The same for the exact difference |
| `Addition.AddMagnitudes` | emu/float80.c:707-728 | The jammed 128-bit sum, carry out included, rounds as the exact sum of magnitudes |
| `Addition.SubtractMagnitudes` | emu/float80.c:728-770 | The jammed difference rounds as the exact difference, although the smaller operand was cut to a sticky bit |
| `Addition.DifferenceRepresented` | emu/float80.c:707-757 | Comparing and subtracting the lined-up significands decides sign and zero as the exact values do |
| `Multiplication.Mul` | emu/float80.c:778-802 | The correctly rounded product, denormals included; zeros, infinities and their invalid product |
| `Multiplication.LongQuotientExact` | emu/float80.c:847-851 | The two long divisions make one exact quotient and remainder |
| `Multiplication.LongQuotientStands` | emu/float80.c:847-854 | 128 quotient bits with the remainder jammed in stand for the infinite quotient |
| `Multiplication.Div` | emu/float80.c:804-860 | The correctly rounded quotient of finite nonzero operands; division by zero, 0/0, infinities and NaNs with their exceptions |
| `SquareRoot.IntegerRoot` | emu/float80.c:1169-1201 | floor(sqrt(n)) and the remainder for every n below 2^128, whatever the host's estimate and correction were; the loops end |
| `SquareRoot.RootUnique` | emu/float80.c:1169-1201 | That root is the only one |
| `SquareRoot.RootStands` | emu/float80.c:1245-1252 | The root, the half bit set exactly when rem > r, and the sticky bit stand for the real root |
| `SquareRoot.RootSignificand` | emu/float80.c:1236-1253 | The significand handed to rounding cannot be told from the root of x at any place rounding looks |
| `SquareRoot.Sqrt` | emu/float80.c:1206-1254 | The correctly rounded square root of every positive finite number in every mode and precision; zeros, infinities, negatives and NaNs |
| `SquareRoot.RootInSquares` | emu/float80.c:1206-1254 | The rounded root without naming a root: in each mode the squares of the points beside it enclose the operand, a halfway one only beside an even significand |
| `SquareRoot.ExactRootRaisesNothing` | emu/float80.c:1206-1254 | A root that fits the precision is delivered exactly, with no PE and no C1 |
| `FastDivision.TestFits` | emu/float80.c:633-633 | Every product and sum in the correction test fits 64 bits |
| `FastDivision.QuotientDigit` | emu/float80.c:632-639 | One half-word digit and its remainder, though the last subtraction wraps; the correction loop ends |
| `FastDivision.Divlu` | emu/float80.c:625-650 | For a normalized divisor above the upper word, the exact 128-by-64 quotient and remainder |
| `FastPaths.FastFinish` | emu/float80.c:544-568 | Answers iff the value rounded at p bits is a normal number, and then with the reference outcome, including the carry from just below the smallest normal |
| `FastPaths.FastNormalInNumbers` | emu/float80.c:540-542 | The operands taken are the finite supported numbers from 2^-16382 up |
| `FastPaths.AddFast` | emu/float80.c:570-611 | Answers iff both operands are normal, less than 64 places apart, and the sum is zero or rounds to a normal; then the outcome is the reference's |
| `FastPaths.MulFast` | emu/float80.c:613-623 | Answers iff both operands are normal and the product rounds to a normal; then the outcome is the reference's |
| `FastPaths.FastQuotientBits` | emu/float80.c:655-662 | Two word divisions make the general code's 128 jammed quotient bits |
| `FastPaths.DivFast` | emu/float80.c:652-668 | Answers iff both operands are normal and the quotient rounds to a normal; then the outcome is the reference's |
| `FastAgreement.AddBothWays` | emu/float80-fast-test.c:112-141 | When the fast sum answers, the general code gives the same bits, PE and C1 and no exception |
| `FastAgreement.MulBothWays` | emu/float80-fast-test.c:112-141 | The same for products |
| `FastAgreement.DivBothWays` | emu/float80-fast-test.c:112-141 | The same for quotients |
| `Exactness.RoundExact` | emu/float80.c:217-286 | A number of the format comes through rounding unchanged and raises nothing |
| `Exactness.DeliveredInFormat` | emu/float80.c:217-286 | A finite outcome is always the value of a number of the format |
| `Integers.NormalizeFloatExact` | emu/float80.c:150-174 | Normalizing keeps the value and yields a supported encoding |
| `Integers.FromIntExact` | emu/float80.c:288-303 | Every 64-bit integer is converted exactly |
| `Integers.IntegersInNumbers` | emu/float80.c:288-303 | The integers are -2^63 to 2^63 - 1, and 1 is encoded with exponent field 0x3fff |
| `Integers.ShiftRoundExactly` | emu/float80.c:50-97 | The rounding shift is correct if and only if it is not a shift by 128, to nearest, of more than 2^127 |
| `Integers.ShiftOf128LosesHalf` | emu/float80.c:54-65 | An input for which that shift delivers 0 where 1 is right |
| `Integers.ShiftRoundSignificand` | emu/float80.c:50-97 | For 64-bit significands it is correct at every shift, flags included |
| `Integers.ToInt` | emu/float80.c:305-324 | The correctly rounded integer with PE and C1, or the integer indefinite and invalid exactly when the rounded value does not fit |
| `Integers.RoundToIntegral` | emu/float80.c:473-496 | The value rounded to an integer in the current mode, with PE and C1 |
| `Integers.RoundTwice` | emu/float80.c:473-496 | Rounding to an integer is idempotent, and the second time raises nothing |
| `Integers.IntRoundTrip` | emu/float80.c:288-324 | Every 64-bit integer converted and converted back is itself, in every mode, with no flag |
| `Integers.ToIntIsRound` | emu/float80.c:305-324 | Where it fits, the converted integer is the rounded float |
| `Ieee.FromIeee` | emu/float80.c:333-389 | Widening a single or double is exact, DE iff denormal, and quiets a NaN, invalid iff it signalled |
| `Ieee.ToIeee` | emu/float80.c:396-457 | Narrowing delivers the correctly rounded IEEE pattern with PE, C1 and OE; zeros, infinities, NaNs and unsupported encodings |
| `Ieee.SourceLayouts` | emu/float80.c:459-471 | The two layouts converted are binary64 and binary32 |
| `Ieee.LayoutsInNumbers` | emu/float80.c:333-389 | The patterns that are worth 1 in the two formats, and where a fraction goes in the significand |
| `Ieee.PatternsInNumbers` | emu/float80.c:333-389 | Every word of 63 bits, or of 31, below the sign is a pattern |
| `Ieee.QuietedInNumbers` | emu/float80.c:400-412 | Quieting a fraction sets its top bit and nothing else |
| `IeeeUnderflow.DeliveredTiny` | emu/float80.c:428-437 | A result delivered below the smallest normal is tiny after rounding with unbounded exponent; a tiny one is delivered as the smallest normal at most |
| `IeeeUnderflow.TinyAtNormalIff` | emu/float80.c:428-437 | In any format a tiny inexact number is delivered as the smallest normal if and only if it lies in that gap |
| `IeeeUnderflow.ToIeeeJudged` | emu/float80.c:396-457 | Narrowing raises exactly what the x87 raises, but for the underflow of an operand in the gap |
| `IeeeUnderflow.UnderflowJudged` | emu/float80.c:391-437 | The underflow flag is the x87's if and only if the operand is not in the gap just below the smallest normal: in units of the last subnormal place, from a half to a quarter below it to nearest, from one to a half below it away from zero, nowhere toward zero; in the gap the x87 reports underflow and the code does not |
| `IeeeUnderflow.UnderflowMissed` | emu/float80.c:391-437 | A float80 operand, for each format and sign, on which that happens |
| `Ieee.IeeeMagInjective` | emu/float80.c:396-457 | Different magnitude patterns have different values |
| `Ieee.IeeeRoundTrip` | emu/float80.c:333-471 | Every pattern that is not a signalling NaN survives widening and narrowing bit for bit in every mode |
| `Scaling.ClampHides` | emu/float80.c:1264-1275 | Clamping the scale never changes the value, encoding or flags of any finite operand |
| `Scaling.ScaleBy` | emu/float80.c:1256-1278 | x times 2^scale rounded once, at 64 bits whatever precision control says |
| `Scaling.ScaleOfTruncates` | emu/float80.c:1298-1306 | The scale read off the bits is the integer part of y, as far as the clamp can tell |
| `Scaling.Fscale` | emu/float80.c:1280-1308 | x times 2 to the integer part of y, correctly rounded, with DE, and the special cases of infinities |
| `Scaling.Xtract` | emu/float80.c:1310-1343 | A significand in [1, 2) and the true exponent, whose product is x, denormals included |
| `Scaling.XtractThenScale` | emu/float80.c:1280-1343 | Scaling the significand by the exponent gives x back bit for bit with no PE |
| `Comparison.Lt` | emu/float80.c:995-1007 | Less-than of values, except that a difference the precision rounds to zero does not count; it raises what rounding the difference raises |
| `Comparison.RoundsToZeroIff` | emu/float80.c:1004-1006 | Exactly which differences are lost: at most half the smallest subnormal of the precision to nearest, below it in the other modes, none away from zero |
| `Comparison.SmallDifferenceLost` | emu/float80.c:1004-1006 | At 53 bits zero is not found less than the smallest denormal |
| `Comparison.LtExactAtFullPrecision` | emu/float80.c:995-1007 | At 64 bits no difference is lost, so the comparison is exact |
| `Comparison.EqIsEqual` | emu/float80.c:1008-1014 | Equality of finite operands is equality of values, zeros of either sign included |
| `Comparison.EqOfOthers` | emu/float80.c:1008-1014 | An infinity equals only the same infinity; a NaN or an unsupported operand equals nothing |
| `Remainder.DifferenceFits` | emu/float80.c:899-905 | Sterbenz: within a factor of two the difference needs no more bits than the smaller operand |
| `Remainder.ReduceStep` | emu/float80.c:950-955 | Each turn subtracts the scaled divisor iff it goes, exactly |
| `Remainder.Reduce` | emu/float80.c:944-957 | The loop leaves the exact remainder below the divisor and the quotient's lowest bit |
| `Remainder.NearestStep` | emu/float80.c:959-970 | The extra subtraction is taken past halfway, or at halfway with an odd quotient, even when doubling the remainder overflows |
| `Remainder.RemainderOf` | emu/float80.c:866-985 | x - n*y exactly, n being x/y truncated or rounded to nearest even, with the sign rule; mode, precision, PE and C1 are as on entry; invalid and NaN operands |
| `Remainder.RemainderSize` | emu/float80.c:866-985 | The truncating remainder is below y and has the sign of x; the other is at most half of y, at half with an even quotient; both are x less a whole number of y, as signed values |
| `LazyFlags.ChargeJoins` | emu/fpenv.c:207-309 | Folding two sets of flags together is folding one after the other, PowerPC's FX included |
| `LazyFlags.ChargeInNumbers` | emu/fpenv.c:207-309 | What charging does to each guest register, bit number by bit number, and when PowerPC gets FX |
| `LazyFlags.HostInNumbers` | emu/fpenv.c:62-79 | The bits of the host registers that guests share |
| `LazyFlags.StaleHarmlessIff` | emu/fpenv.c:356-387 | Exactly when flags left in the host FPSR at enter change what a stretch of guest code is charged |
| `LazyFlags.EnteredInNumbers` | emu/fpenv.c:323-387 | Enter keeps the host flags iff the guest has each of them, told by bit numbers, and otherwise drops them all |
| `LazyFlags.StepAgrees` | emu/fpenv.c:321-412 | Every event keeps the lazy register, with the host's flags charged to it, equal to the eager one |
| `LazyFlags.LazyIsEager` | emu/fpenv.c:321-412 | Over any run of enter, guest operations, reads, writes, exit, emulator floating point, replaced registers, new images of any guest and native programs, no flag is lost, doubled or invented |
| `LazyFlags.ArmRiscvUnconditional` | emu/fpenv.c:364-412 | For runs of arm64 and riscv64 guests that needs no condition |
| `LazyFlags.StretchAdds` | emu/fpenv.c:364-412 | At exit the guest's flags are those at the matching enter and exactly what its operations raised since |
| `LazyFlags.UnsafeFails` | emu/fpenv.c:207-309 | A run that goes wrong for every register value that is not safe |
| `LazyFlags.SafeExactly` | emu/fpenv.c:207-309 | A register value is safe if and only if no run that brings it in goes wrong |
| `LazyFlags.ControlRounds` | emu/fpenv.c:198-294 | The installed FPCR rounds in the direction the guest's own register asks for, except exactly for the RISC-V codes from 4 up, where it rounds to nearest |
| `LazyFlags.ControlInNumbers` | emu/fpenv.c:198-294 | Each FPCR bit enter installs, in terms of the bits of the guest register, default NaN and flush to zero included |
| `Fpenv.SeenAre` | emu/fpenv.c:323-354 | The guest's flags in host bits are the host flags that show as a bit it has |
| `Fpenv.Thread.HostInstall` | emu/fpenv.c:149-161 | Only the guest's bits of the FPCR change, and the thread's original FPCR is remembered |
| `Fpenv.Thread.HostDefault` | emu/fpenv.c:163-166 | The FPCR is again what the thread had before any guest ran on it |
| `Fpenv.Thread.HostTakeFlags` | emu/fpenv.c:169-174 | Returns the sticky flags and clears them and nothing else |
| `Fpenv.Thread.X86Fold` | emu/fpenv.c:207-220 | MXCSR gains the bits the flags are charged as, each told by its number, PE for a flushed result included, and no other |
| `Fpenv.Thread.Riscv64Fold` | emu/fpenv.c:263-271 | fcsr gains the bits the flags are charged as, each told by its number, and no other |
| `Fpenv.Thread.Ppc64Fold` | emu/fpenv.c:299-309 | FPSCR gains the bits the flags are charged as, each told by its number; FX is set iff it was or some other bit is new |
| `Fpenv.Thread.Enter` | emu/fpenv.c:364-387 | Installs the guest's control and clears the host's flags iff one of them is not the guest's |
| `Fpenv.Thread.Exit` | emu/fpenv.c:393-412 | Charges the host's flags to the running guest's register only, with the bits told by their numbers, PowerPC's FX included |
| `Fpenv.Thread.X86SyncMxcsr` | emu/fpenv.c:222-226 | A guest read sees every flag raised so far, once |
| `Fpenv.Thread.X86LoadMxcsr` | emu/fpenv.c:228-236 | A guest write discards the host's flags and installs the new control |
| `Fpenv.Thread.RaiseInvalid` | emu/fpenv.c:311-317 | An invalid operation supplied by a helper is charged like one the FPU raised |
| `Fpenv.Thread.Run` | emu/fpenv.c:149-412 | Over any run, through any guests one after another, the registers follow the lazy machine, guest code always runs under its own control bits, and a native program starts from the FPCR the thread first had |
| `Gf256.Multiply` | emu/avx.c:611-623 | The loop computes the product |
| `Gf256.DoubleByShift` | emu/avx.c:616-619 | Multiplication by x is the shift, reduced by 0x1b when x^8 appears |
| `Gf256.GfMulLinear` | emu/avx.c:611-623 | The product distributes over XOR on both sides |
| `Gf256.ProductUnit` | emu/avx.c:611-623 | 1 is neutral on both sides |
| `Gf256.ProductTimesX` | emu/avx.c:611-623 | Multiplying an operand by x multiplies the product by x, modulo the AES polynomial |
| `Gf256.ProductCommutes` | emu/avx.c:611-623 | The product is commutative, though the loop treats its operands differently |
| `Gf256.ProductAssociates` | emu/avx.c:611-623 | The product is associative |
| `AesTables.TablesInverse` | emu/avx.c:572-608 | The second table undoes the first at every byte |
| `AesTables.TablesInverseBack` | emu/avx.c:572-608 | And the first undoes the second |
| `AesTables.SboxIsFips197` | emu/avx.c:572-589 | Every entry of the first table is the affine map of the inverse in GF(2^8), as section 5.1.1 of FIPS 197 defines the S-box |
| `AesTables.TablesInNumbers` | emu/avx.c:572-608 | The ends of both tables and the entry section 5.1.1 of FIPS 197 works out |
| `Aes.ShiftsTurnRows` | emu/avx.c:631-632 | The two byte orders turn row r left and right by r columns |
| `Aes.LastRoundBytes` | emu/avx.c:631-638 | Byte by byte: row r has turned by r columns, left or right, each byte has gone through its S-box, and the key is added |
| `Aes.RoundBytes` | emu/avx.c:631-661 | The same bytes, four to a column, are mixed or unmixed before the key is added |
| `Aes.MatricesInNumbers` | emu/avx.c:645-655 | The mixing is by 2, 3, 1, 1 and the unmixing by 14, 11, 13, 9 |
| `Aes.ColumnInverse` | emu/avx.c:645-655 | The decrypting column matrix undoes the encrypting one |
| `Aes.MixInverse` | emu/avx.c:640-658 | InvMixColumns undoes MixColumns on every block |
| `Aes.InvMixLinear` | emu/avx.c:645-650 | InvMixColumns distributes over the key addition |
| `Aes.RoundInverse` | emu/avx.c:629-662 | A decrypting round with the transformed key takes off the encrypting round that came last |
| `Aes.DecryptsWhatWasEncrypted` | emu/avx.c:625-662 | For any block, any keys and any number of rounds, the equivalent inverse cipher of section 5.3.5 of FIPS 197 returns the plaintext |
| `Aes.AesRound` | emu/avx.c:629-662 | The buffer code computes the round, also when the output is the state's or the key's own buffer |
| `Exclusive.ValueOfPut` | emu/arm64_interp.c:96-126 | What was stored in n bytes reads back as its low n bytes |
| `Exclusive.AccessInNumbers` | kernel/abi.h:102-107 | An access must lie below 2^48, in mapped memory, and a write off read-only bytes |
| `Exclusive.ClearMonitorRefuses` | emu/arm64_interp.c:597-615 | A clear monitor never lets a store through, whatever the base register holds |
| `Exclusive.StoreNeedsLoad` | emu/arm64_interp.c:582-617 | After a completed STXR no STXR succeeds until the next LDXR, whatever runs in between and whatever other CPUs do to memory |
| `Exclusive.StoreExclusiveMemory` | emu/arm64_interp.c:596-617 | A failing or faulting STXR leaves memory alone; a successful one held the address and the loaded value; a completed one clears the monitor |
| `Exclusive.StoreSucceedsIff` | emu/arm64_interp.c:597-615 | STXR reports success if and only if the monitor holds the address, the word is writable and it holds, at the store, the value loaded |
| `Exclusive.LoadExclusiveFully` | emu/arm64_interp.c:584-596 | LDXR sets Rt to the loaded value in full, upper bits zero, and the monitor; SP and every other register stay |
| `Exclusive.StoreExclusiveFully` | emu/arm64_interp.c:596-617 | STXR changes the word, Rs and the monitor address and nothing else; what is stored, when, and when it faults |
| `Exclusive.CompareAndSwapFully` | emu/arm64_interp.c:484-503 | CAS changes the word and Rs and nothing else, the monitor included; what is stored, when, and when it faults |
| `Exclusive.Core.Ldxr` | emu/arm64_interp.c:584-596 | LDXR loads, and marks address and value, or faults and changes nothing |
| `Exclusive.Core.Stxr` | emu/arm64_interp.c:596-617 | STXR stores iff the monitor holds the address and memory the value, reports which, and clears the monitor unless it faults |
| `Exclusive.Core.Cas` | emu/arm64_interp.c:484-503 | CAS swaps iff memory holds the expected value and always returns what it found |
| `Exclusive.Ram.Read` | emu/arm64_interp.c:96-110 | A read succeeds iff the range is valid and mapped; byte j of the value is then byte j of memory, and nothing lies above the last |
| `Exclusive.Ram.Write` | emu/arm64_interp.c:112-126 | A write succeeds iff the range is valid, mapped and writable, and changes only those bytes |
| `ExclusiveRuns.SwapReports` | emu/arm64_interp.c:492-502 | What CAS returns tells whether it swapped, for every size |
| `ExclusiveRuns.AddInNumbers` | emu/arm64_interp.c:211-237 | The addition between load and store is modulo 2^64 or 2^32 and touches one register |
| `ExclusiveRuns.NextKeeps` | emu/arm64_interp.c:484-617 | Every instruction of every CPU keeps the count, whichever registers each increment uses and whatever idle CPUs do with theirs |
| `ExclusiveRuns.NoUpdateIsLost` | emu/arm64_interp.c:484-617 | However the CPUs interleave, each increment with base, status and data registers of its own choice, the word has gone up by exactly the number of stores reported to succeed, modulo its width, and no other byte has changed |
| `ExclusiveRuns.UncontendedSucceeds` | emu/arm64_interp.c:582-617 | Left alone, an increment goes through at the first try |
| `ExclusiveRuns.SomeRunsWin` | emu/arm64_interp.c:484-617 | From any start every CPU whose base register holds the address has runs that win, by either way and with any registers |
| `ExclusiveRuns.ChangedAndChangedBack` | emu/arm64_interp.c:484-617 | A word another CPU, with registers of its own, changed and changed back between LDXR and STXR does not make the STXR fail |
| `Fxsave.SplitJoin` | emu/fxsave.h:98-127 | A significand cut into four words is put together again exactly |
| `Fxsave.TopInNumbers` | emu/cpu.h:339-339 | TOP is the number in bits 11 to 13 of the status word |
| `Fxsave.ControlWordInNumbers` | emu/fpu.c:760-768 | Rounding and precision by the codes in bits 10 and 11, 8 and 9 of the control word |
| `Fxsave.TagOf` | emu/fxsave.h:55-68 | Empty iff the valid bit is clear, zero iff every bit but the sign is clear, valid iff the exponent is ordinary and the integer bit set, special otherwise |
| `Fxsave.FullTag` | emu/fxsave.h:69-74 | Bits 2i and 2i + 1 of the tag word are 11 for an empty register, 01 for zero, 00 for a normal number, 10 for anything else |
| `Fxsave.ValidFromFullTag` | emu/fxsave.h:75-83 | A register is valid iff its pair is not 11 |
| `Fxsave.TagRoundTrip` | emu/fxsave.h:55-83 | Going through the full tag word gives the abridged one back, for every state |
| `Fxsave.Fill` | emu/fxsave.h:85-108 | Slot i holds physical register (TOP + i) modulo 8, bit for bit, TOP being bits 11 to 13 of the status word; tags by physical register; XMM slots past the count zero |
| `Fxsave.Restore` | emu/fxsave.h:110-132 | Slot i goes to physical register (TOP + i) modulo 8, bit for bit, TOP being that of the restored status word; float80's mode and precision follow the control word |
| `Fxsave.SaveAndRestore` | emu/fxsave.h:85-132 | Whatever TOP the target had, it ends with the source's eight physical registers, control, status, tag and MXCSR words and first n XMM registers, and nothing else has changed |

## Left out

- `f80_log2`, `f80_log2p1` and `f80_ln_atanh`: series approximations with no exact specification to hold them to.
- Sqrt: the host's double-precision estimate of the integer root and its first correction are parameters, and the result is proved for all of them; the double arithmetic itself is not modelled.
- `f80_lte`, `f80_gt`, `f80_neg`, `f80_abs`: one-line wrappers.
- `emu/fpu.c`, the x87 instruction layer, but for the control-word load that FXSAVE needs.
- The `fenv.h` variant of `emu/fpenv.c` for hosts other than aarch64, the assembly gadgets that read and write flags for the arm64, riscv64 and ppc64 guests, and `fpu_sync_control` at enter; registers are modelled as sets of bits, of which FPCR and FPSR use 32.
- The rest of `emu/avx.c`: elementwise lane operations, carry-less multiplication, the host floating point; AES key expansion is not in the source.
- LDXP, STXP and CASP, whose helpers are elsewhere; the TLB is a memory that ends at some address and has read-only bytes; the fault address registers.
- NoUpdateIsLost: each instruction is one step; the interpreter's read and write inside one STXR or CAS are not atomic against other host threads, and the source says so.
- The reserved fields of the FXSAVE area, which the code leaves zero, and `emu/xsave.h`.
