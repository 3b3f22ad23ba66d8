# PosInt: arbitrary-precision non-negative integers

This project models `PosInt`, the multi-precision integer class of
`posint/posint.cpp`, and proves its arithmetic correct. A `PosInt` keeps its
value as a vector of digits in radix `B`, least significant digit first,
with no most-significant zero digit (zero has no digits at all). The class
offers:

- comparison, addition, subtraction and schoolbook multiplication;
- Karatsuba multiplication;
- single-digit scaling and division, and long division with remainder;
- exponentiation by repeated multiplication;
- Euclid's gcd.

Every operation is built on array kernels (`addArray`, `subArray`,
`mulArray`, `fastMulArray`, `mulDigit`, `divDigit`, `divremArray`) that
work in place on raw digit buffers.

The model follows that structure:

| module | file | contents |
|---|---|---|
| `Arith` | `arith.dfy` | small facts of non-linear integer arithmetic |
| `Digits` | `digits.dfy` | `Value` of a digit sequence, `Power`, `IsDigits`, `Normalized`, `StripZeros`, `ToDigits`, and their lemmas |
| `Parity` | `parity.dfy` | the two parity rules `isEven` relies on |
| `GcdSpec` | `gcd_spec.dfy` | divisibility, `IsGcd`, and Euclid's step |
| `Comparison` | `comparison.dfy` | `compareDigits` |
| `Addition`, `Subtraction` | `addition.dfy`, `subtraction.dfy` | `addArray` and `subArray`, one method per loop |
| `Multiplication` | `multiplication.dfy` | `mulArray` |
| `Karatsuba` | `karatsuba.dfy` | `fastMulArray` |
| `Estimate` | `estimate.dfy` | why the quotient-digit estimate of `divremArray` never overshoots |
| `Division` | `division.dfy` | `mulDigit`, `divDigit`, `divremArray` |
| `PosInts` | `posint.dfy` | the class `PosInt` and the branches of `divrem` and `fastMul` |

How the source maps onto Dafny:

- The kernels are methods over an `array<int>` buffer. They are proved
  against `Value`, the number a digit sequence stands for, which is a
  specification function.
- Read-only `const int*` operands become `seq<int>` values. A pointer offset
  such as `r + qind` becomes an offset parameter.
- `PosInt` is a class. It has a sequence field `digits` that its methods
  reassign, and an immutable radix `B`.
- `Valid()` says the digits lie in `[0, B)` and are normalized. `Val()` is
  the value of the digits.
- The exceptions of `set`, `sub` and `divrem` become an `Outcome`:
  `Pass` or `Fail(MPError)`.

## Model

| member | source | states |
|---|---|---|
| PosInts.PosInt.constructor | posint/posint.cpp:155 | a default-constructed PosInt is zero: no digits, valid |
| PosInts.PosInt.FromInt | posint/posint.cpp:695 | constructing from a native x >= 0 gives the digits of x and value x |
| PosInts.PosInt.Copy | posint/posint.cpp:719 | the copy has the same radix and digits |
| PosInts.PosInt.SetInt | posint/posint.cpp:35-45 | fails with NegativeValue exactly when x < 0, leaving no digits; otherwise the digits are ToDigits(x) (x mod B first), valid, with value x |
| Digits.ToDigitsCorrect | posint/posint.cpp:41-44 | the digits pushed by set(int) are digits, normalized, and stand for n |
| Digits.ValueToDigits | posint/posint.cpp:41-44 | round trip: the normalized digits of any value are the ones set(int) pushes for that value |
| PosInts.PosInt.Assign | posint/posint.cpp:47-50 | the digits become those of rhs (unchanged on self-assignment) |
| PosInts.PosInt.Convert | posint/posint.cpp:117-125 | the loop's weighted sum equals Val() |
| PosInts.PosInt.Normalize | posint/posint.cpp:173-178 | digits become StripZeros of the old digits: normalized, same value, valid when the old entries were digits |
| Digits.StripZerosValue | posint/posint.cpp:173-178 | dropping most-significant zeros keeps the value |
| Digits.StripZerosShape | posint/posint.cpp:176-177 | the result is a prefix, everything cut off is zero, and it is normalized |
| Digits.StripZerosIdempotent | posint/posint.cpp:173-178 | normalizing twice is normalizing once |
| Digits.NormalizedFixpoint | posint/posint.cpp:176-177 | normalized digits are left alone |
| Digits.StripZerosDigits | posint/posint.cpp:173-178 | normalizing keeps every entry a digit |
| Digits.NormalizedUnique | posint/posint.cpp:173-178 | two normalized digit sequences of equal value are equal, so a value has one representation |
| PosInts.PosInt.IsEven | posint/posint.cpp:180-186 | true exactly when Val() is even, in both the even-radix and the odd-radix branch |
| Parity.EvenRadixParity | posint/posint.cpp:181 | in an even radix the lowest digit has the parity of the value |
| Parity.OddRadixParity | posint/posint.cpp:182-185 | in an odd radix the digit-parity sum has the parity of the value |
| Comparison.Order | posint/posint.cpp:188-189 | -1, 0 or 1 exactly when x <, = or > y |
| Comparison.CompareDigits | posint/posint.cpp:188-203 | returns Order of the two buffers' values, a shorter buffer counting as zero-extended |
| Comparison.AboveDifferingDigit | posint/posint.cpp:198-201 | equal-length digit sequences agreeing above the first differing digit are ordered by that digit |
| PosInts.PosInt.Compare | posint/posint.cpp:205-212 | returns Order(Val(), x.Val()) |
| Digits.NormalizedLengthOrder | posint/posint.cpp:207-208 | a normalized number with fewer digits is smaller |
| Digits.MoveCarry | posint/posint.cpp:224-227 | moving c units from entry k to entry k+1 (entry k loses c·B, entry k+1 gains c) changes no other entry and keeps the value of the window; the same step serves lines 231-232, 255-256 and 261-262 |
| Addition.AddArray | posint/posint.cpp:216-234 | the window dest[off..] grows by x and stays digits, dest[..off] is untouched, the whole buffer grows by B^off·x |
| Addition.AddDigitwise | posint/posint.cpp:220-221 | after the digit-wise sum each entry of the window is below 2B-1, the rest stay digits, and the window grows by exactly x |
| Addition.CarryPass | posint/posint.cpp:223-228 | the carry pass keeps the value and leaves every entry but the last of the pass a digit |
| Addition.CarryOut | posint/posint.cpp:230-233 | the final carry stays inside a buffer whose value fits, which ends up all digits |
| PosInts.PosInt.Add | posint/posint.cpp:236-241 | Val() becomes old Val() + x.Val(), valid |
| Subtraction.SubArray | posint/posint.cpp:245-266 | for dest[off..] >= x, the window shrinks by x and stays digits, the whole buffer shrinks by B^off·x |
| Subtraction.SubDigitwise | posint/posint.cpp:250-251 | after the digit-wise difference each entry of the window lies strictly between -B and B, the rest stay digits, and the window shrinks by exactly x |
| Subtraction.BorrowPass | posint/posint.cpp:253-258 | the borrow pass keeps the value, leaves every entry below its stopping index a digit, that entry at least -B, and nothing below off changed |
| Subtraction.BorrowOut | posint/posint.cpp:260-263 | the final borrow stays inside a buffer of non-negative value, which ends up all digits |
| PosInts.PosInt.Sub | posint/posint.cpp:268-276 | fails with NegativeDifference exactly when x > this (digits unchanged); otherwise Val() becomes old Val() - x.Val() |
| PosInts.AddThenSub | posint/posint.cpp:236-276 | a.add(b) then a.sub(b) restores a's digits exactly |
| Multiplication.MulArray | posint/posint.cpp:280-295 | dest holds x·y in digits |
| Multiplication.MulRow | posint/posint.cpp:289-293 | row i adds B^i·x_i·y and the entries beyond the row stay zero |
| Multiplication.MulStep | posint/posint.cpp:290-292 | one step adds B^k·a·b, leaves dest[k] a digit and carries less than B into dest[k+1] |
| Karatsuba.FastMulArray | posint/posint.cpp:297-455 | dest holds x·y in digits |
| Karatsuba.ThreeProducts | posint/posint.cpp:377-431 | a = xh·yh, d = xl·yl and the middle term e = xl·yh + xh·yl |
| Karatsuba.Product | posint/posint.cpp:394-395 | each recursive product (also the one of line 411) has twice the operand length, is digits, and equals x·y |
| Karatsuba.SubtractBoth | posint/posint.cpp:429-431 | (e - a - d) in digits, of the length of e |
| Karatsuba.KaratsubaIdentity | posint/posint.cpp:426-427 | (xl + p·xh)(yl + p·yh) = d + p·(middle) + p²·a |
| Karatsuba.SplitHalves | posint/posint.cpp:316-374 | the low half and the zero-padded high half are digits and x = low + B^h·high |
| Karatsuba.HalfSum | posint/posint.cpp:397-399 | the half sum is h+1 digits with value low + high |
| Karatsuba.Combine | posint/posint.cpp:433-440 | the recombination writes d + B^h·e + B^2h·a into dest, in digits |
| Karatsuba.AddShifted | posint/posint.cpp:438-440 | adding a term at a digit offset keeps dest digits and raises its value by exactly B^off times the term, when that fits |
| Karatsuba.FastMulMatchesMulArray | posint/posint.cpp:280-299 | on equal-length operands fastMulArray and mulArray give the same digit sequence |
| PosInts.PosInt.Mul | posint/posint.cpp:457-479 | Val() becomes old Val()·x.Val(), valid, also when x is this object |
| PosInts.PaddedLength | posint/posint.cpp:500-506 | the padded length is 2·2^(length/2) and exceeds length |
| PosInts.FastMulBuffers | posint/posint.cpp:490-532 | fastMul as written reserves 2·length entries while fastMulArray writes 2·(2·2^(length/2)) entries, which is more; for length 1 that is 2 reserved against 4 written |
| PosInts.PosInt.FastMul | posint/posint.cpp:481-552 | the 2·length digits fastMul displays are the product Val()·x.Val() |
| Division.MulDigit | posint/posint.cpp:556-570 | dest becomes dest[..len]·d plus the untouched higher part, in digits, when that fits |
| Division.ScaleEntries | posint/posint.cpp:560-561 | the first loop multiplies each of the first len entries by d |
| Division.CarryBelow | posint/posint.cpp:562-565 | the second loop keeps the value and leaves every entry but entry len-1 a digit |
| Division.CarryOne | posint/posint.cpp:563-564 | one carry step (also lines 567-568) makes entry i a digit, changes no entry but i and i+1, and keeps the value |
| Division.CarryAbove | posint/posint.cpp:566-569 | the carries after the first len entries stop inside a buffer whose value fits |
| Division.DivDigit | posint/posint.cpp:572-581 | dest becomes dest / d in digits and the result is dest mod d |
| Division.DivremArray | posint/posint.cpp:583-627 | x = q·y + r with r < y, q and r in digits |
| Division.Correct | posint/posint.cpp:603-607 | the correction loop moves multiples of y from the window to q[qind] until the window is below y, and q[qind] ends below B |
| Division.CorrectStep | posint/posint.cpp:603-607 | starting from a window that is below B·y after counting q[qind], the correction leaves the window below y, every q from qind up a digit, and x = q·y + r unchanged |
| Division.EstimateDigit | posint/posint.cpp:614-623 | the estimated digit times y is subtracted from the window, which stays non-negative |
| Division.EstimateStep | posint/posint.cpp:611-623 | moving to the next quotient digit keeps x = q·y + r, r in digits and the higher q digits, and leaves the new window below B·y after counting q[qind] |
| Division.SubtractMultiple | posint/posint.cpp:619-622 | subtracting qe·y from the window at qind lowers it and the whole remainder by exactly qe·y (times B^qind), keeps r digits and r[..qind] unchanged |
| Estimate.QuotientEstimate | posint/posint.cpp:615 | the two-digit estimate minus 2 never exceeds the true quotient digit |
| Estimate.DivisorHalf | posint/posint.cpp:588 | a divisor whose top digit is at least B/2 is at least half of B^|y| |
| PosInts.PosInt.DivRem | posint/posint.cpp:629-689 | fails with DivideByZero exactly when y = 0, and with SameQuotientRemainder exactly when q and r are one object; otherwise q = x / y and r = x mod y, both valid, with q = 0 and r = x when x < y |
| PosInts.PosInt.Divide | posint/posint.cpp:634-689 | x = q·y + r with r < y in all three branches |
| PosInts.SingleDigitDivide | posint/posint.cpp:639-643 | quotient x / d and remainder x mod d by divDigit |
| PosInts.NormalizeDivisor | posint/posint.cpp:644-652 | doubling gives fac·y in the same number of digits, with 2 <= fac < B and top digit at least B/2 |
| PosInts.DoublingFits | posint/posint.cpp:649-652 | in an even radix doubling a number with top digit below B/2 adds no digit |
| PosInts.OddRadixDoublingOverflows | posint/posint.cpp:644-652 | in an odd radix the same guard lets doubling need one more digit |
| PosInts.ScaleDividend | posint/posint.cpp:654-658 | x with one more zero digit, times fac, in digits |
| PosInts.ScaledDivide | posint/posint.cpp:644-665 | dividing fac·x by fac·y and the remainder by fac gives x = q·y + r with r < y |
| Arith.UnscaleRemainder | posint/posint.cpp:662 | the scaled remainder divided by fac is x - q·y, below y |
| PosInts.DirectDivide | posint/posint.cpp:666-686 | divremArray on a divisor already normalized gives x = q·y + r with r < y |
| PosInts.PosInt.Mod | posint/posint.cpp:722-723 | fails with DivideByZero exactly when y = 0; otherwise Val() becomes old Val() mod y |
| PosInts.PosInt.IsZero | posint/posint.cpp:721 | true exactly when Val() = 0 |
| PosInts.PosInt.Pow | posint/posint.cpp:693-708 | Val() becomes old Val() to the power x.Val() (0^0 = 1), also when x is this object |
| PosInts.PosInt.Gcd | posint/posint.cpp:717-727 | Val() becomes the greatest common divisor of x and y |
| GcdSpec.EuclidStep | posint/posint.cpp:721-726 | a, b and b, a mod b have the same common divisors |
| GcdSpec.SameCommonDivisorsTrans | posint/posint.cpp:721-726 | sharing common divisors is transitive across loop iterations |
| GcdSpec.GcdWithZero | posint/posint.cpp:721 | gcd(a, 0) = a, which ends the loop |
| GcdSpec.GcdFromCommonDivisors | posint/posint.cpp:727 | a number with the common divisors of x and y, paired with zero, is their gcd |
| GcdSpec.GcdUnique | posint/posint.cpp:717-727 | the gcd is unique |

## Left out

- `posint/driver.cpp` is an example program, not part of the library. It calls `setBase(16, 3)` and then `setBase(10, 2)`, builds `PosInt` values from integer literals and calls the printing `fastMul` on each pair (driver.cpp:15-67). Its value construction and multiplication are covered by `PosInts.PosInt.FromInt` and `PosInts.PosInt.FastMul`; the program itself and its output are not modelled.
- I/O is not modelled: `read`, `print`, `print_array`, and the stream operators `<<` and `>>`. They are conversions between text and digits, not arithmetic.
- `rand` and `randomInt` are not modelled. They draw from the C library's random generator, which has no model here.
- `powmod`, `xgcd` and `MillerRabin` are empty stubs in the source. They compute nothing, so there is nothing to model.
- `setBase` sets a process-wide static radix. The model gives each `PosInt` an immutable radix `B >= 2` instead, so the global state and its effect on existing values are not modelled.
- The time measurement and console output in `fastMul` are not modelled (`clock`, `cout`).
- `posint.h` is not part of this model. It declares `mod`, `isZero` and the constructors, whose bodies are not shown. `PosInts.PosInt.Mod` is modelled as the remainder from `divrem` and `PosInts.PosInt.IsZero` as "no digits".
- Native `int` width is not modelled. Digits, carries and `convert`'s sum are unbounded integers, so `convert`'s overflow for large values and `set(int)`'s 32-bit range are not modelled.
- Karatsuba.FastMulArray: models Karatsuba's method as lines 426-427 describe it, not the body as written:
  - The body splits at `len/2` for every length and pads the halves with loops that rewrite one index.
  - It shifts by multiplying with `B^len` through `mulDigit`, which overflows `int`.
  - It adds all three terms at offset 0.
  - The model splits at `h = ceil(len/2)`, takes the middle product on `h+1` digits, and uses `mulArray` below four digits. It shifts by adding at offsets `h` and `2h`.
- Karatsuba.FastMulArray: requires `dest` to be all zeros on entry. Every caller in the source zeroes its buffers first.
- Multiplication.MulArray: takes a buffer of exactly `|x| + |y|` entries, the size the source asks for.
- Division.DivremArray: takes `q` and `r` of exactly `|x| - |y| + 1` and `|x|` entries, the sizes `divrem` passes, rather than "at least".
- PosInts.PosInt.DivRem: requires an even radix. The divisor normalisation as written can overflow its buffer in an odd radix (see Findings).
- PosInts.PosInt.Divide: requires an even radix, for the same reason as `DivRem`, whose normalisation it shares.
- PosInts.PosInt.Mod: requires an even radix, because it goes through `divrem`.
- PosInts.PosInt.Gcd: requires an even radix, because it goes through `mod`.
- PosInts.PosInt.FastMul: returns the digits that `fastMul` prints instead of printing them, and leaves `this` unchanged like the source. It allocates a product buffer of twice the padded length (see Findings).
- Aliasing between the operands of `divrem` (`x` or `y` being `q` or `r`) is covered because the kernels take the operands' digits as values. The copies `xarr` and `yarr` therefore need no counterpart.

## Findings

| source | as written | input that shows it | evidently intended | confidence | as-written member | corrected member |
|---|---|---|---|---|---|---|
| posint/posint.cpp:644-652 | `divrem` doubles the divisor in its own `ylen`-entry buffer until the top digit is at least B/2, which in an odd radix can carry out of the buffer | B = 3, y = [2, 1] (value 5): the top digit 1 doubled is below 3, but 2·5 = 10 is [1, 0, 1], three digits, and `mulDigit`'s last loop writes past `scaley` | doubling never adds a digit, which holds in an even radix such as the default 0x8000 | not executed | PosInts.OddRadixDoublingOverflows | PosInts.NormalizeDivisor |
| posint/posint.cpp:493, 532 | `fastMul` allocates `dest` with 2·length entries, but `fastMulArray` on operands of `digit_length` = 2·2^(length/2) entries writes 2·digit_length entries | length = 1: `dest` has 2 entries, `digit_length` is 2, and the product is written into 4 entries | `dest` of 2·digit_length entries | not executed | PosInts.FastMulBuffers | PosInts.PosInt.FastMul |
