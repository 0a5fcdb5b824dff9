# Verified model of Yog: big numbers, scopes, coroutines and two codecs

Yog is an interpreter written in C. This project models the parts of it whose correctness rests on
arithmetic or on invariants that span many functions, in the form the C code has: arrays and objects updated
in place by loops, specified by functions on the numbers, scopes and segments they stand for.

**Multiple-precision arithmetic (`BigDigits/`).** Numbers are little-endian arrays of machine digits. A digit
is `0 <= d < BASE`, with `BASE = B * B` and `B` a power of two; the modules hold for digits of 32 and of 64 bits
alike. Every wrap of a machine word is written out (`AddW`, `SubW`, `MulW`). `Value.Val` and `Linear.Num` are
the number that a run of digits stands for, and every routine is specified by what it does to these numbers and
by what it leaves alone. The tower runs from single-digit multiplication and division through Knuth's
algorithms A, S, M and D, squaring with a deferred carry, shifts, sliding-window exponentiation, inverse, gcd,
roots and radix conversion to the Miller-Rabin test, which is shown never to reject a prime. `NumberTheory`
proves what that needs, Fermat's little theorem included, from the definition of division. `mpJacobi` is shown to
compute the Jacobi symbol as it is defined, by Legendre symbols of prime factors; `QuadraticReciprocity`,
`QuadraticResidues` and `JacobiSymbol` prove the laws this rests on. `Bigds` is the resizable object on top,
`BigdRuns` any sequence of calls on it, and `SpExtras` the single-digit versions.

**Lexical scoping and the display (`src/compile.c`, `src/callable.c`, `src/eval.c`).** `Scopes` holds the tree
of variable tables as it is mutated; `ScopeCompiler` builds the tables from a body; `CodeObjects` resolves them
and computes how many enclosing frames each code object keeps. A compiled package satisfies `Compiled`, a
specification of scoping that mentions neither tables nor the order in which they are visited. `Display` is the
machine that calls functions, enters class bodies, returns, and recycles frames, with `Valid()` kept by every step;
`DisplayRuns` takes any list of such steps, and relates it to a run without frames, in which every body ever entered
has locals of its own and nothing is recycled.

**Coroutines (`src/coroutine.c`).** `Coroutines.Thread.Valid()` says that the frames and jump buffers of the main
program and of every active coroutine form disjoint segments, each resting on whoever resumed it, and that those
of an idle coroutine wait intact. Every step keeps it, and `CoroutineRuns.Run` any list of steps; `RunBack` and its
clients say what a resumer gets back at the end of a run, and a coroutine when it is resumed again. The meaning of the
steps without links is `CoroutineWorlds.Next`, and every run shows it.

**Codecs.** `Utf8` is the UTF-8 encoder and decoder on bit vectors, related to the arithmetic of the standard through
`BitFields`; `LineTable` the table from code positions to source lines.

## What turned out false

Each of these is a behaviour of the code, stated as an exact condition for all inputs.

- `mpSqrt` gives the integer root exactly when the operand is at most 1 or not all ones; on all ones it gives 0
  (`Roots.MpSqrt`). `mpCubeRoot` gives the root exactly when the operand is at most 1 or `Roots.Converges` holds;
  otherwise it gives the wrapped first iterate (`Roots.MpCubeRoot`), as for half the range (`Roots.HalfRangeFails`).
- `mpModExp_1` returns its base unreduced for an exponent of 1, and 1 unreduced for 0 (`ModExp.MpModExp1`); the
  single-digit variants are exact where `SpExtras.SpModExpK` and `SpModExpB` say. `spIsPrime` accepts a prime exactly
  when it is above 19.
- `bdAdd` on two numbers of no digits, into an object with a stale first digit, leaves that digit in place and
  breaks the representation invariant; `Bigds.StaleDigit` then adds 1 to a "zero" and reads 6. `bdShortMult` does the
  same when the number multiplied has no digits, and passes it on to `bdMultiply`. `BigdRuns.Exact` is the condition
  under which each operation is right, checked before the call.
- `bdPower` of a number into itself answers 1, since it sets the result to 1 before it copies the base; it is right
  exactly for two objects, the exponent 0 or the base 1 (`Bigds.BdPower`).
- The conversions to a string write a second character into a buffer of one for the number zero
  (`Convert.ConvToBase`, `Convert.PastTheBuffer`).
- `mpConvFromDecimal` allots `ceil(0.41524 n)` octets for `n` characters, which is too few for long
  strings: 1811 nines lose their high octet (`Convert.NinesAreCutOff`), and 1811 is the first length where that
  happens (`DecimalLengths.EnoughOctets`). The factor for output, 2.40824, is always
  enough (`DecimalLengths.EnoughDigits`), so decimal output is exact for every number.
- Characters from 0x10000 to 0x1fffff, and from 0x4000000 up, survive UTF-8 only if `Utf8.Faithful` holds.
- A function's nonlocal variable is reached through the display exactly if no class body lies strictly between
  it and the body that has the variable (`Display.NonlocalReaches`); `DisplayRuns.ClassBetweenRuns` compiles and runs
  a program where one does.
- The line table can be built exactly if the first operation has a line or no operation has one; otherwise an
  assertion stops the compiler (`LineTable.MakeLinenoTable`).

## Model

| member | source | states |
|---|---|---|
| Digits.WordArithmetic | BigDigits/bigdigits.c:482-554 | The three word operations, written with explicit wraps, are arithmetic modulo the word. |
| SinglePrecision.SpMultiply | BigDigits/bigdigits.c:243-303 | From half-digit products with every carry wrapped, the two result digits hold the exact product, for all digits. |
| SinglePrecision.SpMultSub | BigDigits/bigdigits.c:309-325 | For all half digits, the difference modulo two digits, with the high digit one too large exactly where the carry out of `t` is dropped; where the difference fits one digit, the low digit is exact all the same. |
| SinglePrecision.TrialQuotient | BigDigits/bigdigits.c:408-420 | The trial quotient, which starts as large as B+1, is brought by the two tests to the exact half-digit quotient, so no add-back is needed. |
| SinglePrecision.DivideRound | BigDigits/bigdigits.c:404-436 | One half-digit round leaves the exact remainder below the divisor; the add-back branch is not taken. |
| SinglePrecision.SpDivide | BigDigits/bigdigits.c:327-475 | For every double digit and every divisor with its high bit set: exact quotient with overflow digit, remainder below the divisor; other divisors give the overflow answer. |
| Linear.MpAdd | BigDigits/bigdigits.c:482-517 | Sum plus carry is the sum of the old operands, also in place; the carry is at most 1 and digits outside are kept. |
| Linear.MpSubtract | BigDigits/bigdigits.c:519-554 | Difference modulo the range, with borrow 1 exactly when the first operand is the smaller. |
| Linear.MpShortAdd | BigDigits/bigdigits.c:1239-1273 | Digit added with exact carry, in place or not. |
| Linear.MpShortSub | BigDigits/bigdigits.c:1275-1309 | Digit subtracted, with borrow exactly when the number is smaller than the digit. |
| Linear.MpCompare | BigDigits/bigdigits.c:946-962 | The comparison from the top digit down is the order of the numbers. |
| Linear.MpIsZero | BigDigits/bigdigits.c:964-979 | 1 for zero, 0 otherwise, -1 for no digits. |
| Linear.MpSizeof | BigDigits/bigdigits.c:981-990 | The number of significant digits: nothing above it, and its top digit is not zero. |
| Linear.MpShortCmp | BigDigits/bigdigits.c:1428-1449 | Comparison with a digit is the order of the numbers, also for no digits. |
| Multiply.MultiplyRow | BigDigits/bigdigits.c:586-604 | One row of Algorithm M adds u times a digit to the window of w, into a top digit that was unset. |
| Multiply.MpMultiply | BigDigits/bigdigits.c:556-609 | The double-length product is exact for every length, and digits above it are kept. |
| Multiply.MpShortMult | BigDigits/bigdigits.c:1311-1347 | Product by a digit with exact carry, in place or not. |
| Square.CrossTerm | BigDigits/bigdigits.c:877-914 | The doubled product, the pending pair, the column digit and the remembered overflow fit three words; with no overflow to take in, a third word of at most 1 stays at most 1. |
| Square.PartialBound | BigDigits/bigdigits.c:917-923 | The overflow remembered after any round is at most 1, and after the last it is zero. |
| Square.SquareRow | BigDigits/bigdigits.c:846-920 | A round adds its diagonal and doubled cross terms exactly; the overflow remembered at cpos is consumed in the next round, and one of at most 1 leaves one of at most 1. |
| Square.ThirdWord | BigDigits/bigdigits.c:874-915 | In every column of a round, also the one that takes in the overflow, the third carry word is at most 1. |
| Square.MpSquare | BigDigits/bigdigits.c:821-928 | The square is exact for every length, hence what mpMultiply gives on two equal operands. |
| Divide.MpMultSub | BigDigits/bigdigits.c:613-645 | The window less q times the divisor, with the borrow taken from the separate top digit. |
| Divide.QhatTooBig | BigDigits/bigdigits.c:647-663 | The two-word comparison is the comparison of qhat v(n-2) with the two-digit number (rhat, u). |
| Divide.EstimateDigit | BigDigits/bigdigits.c:762-789 | Step D3 ends with the largest digit whose product with the top two divisor digits is within the top three of the window. |
| Divide.DigitEstimated | BigDigits/bigdigits.c:762-794 | On entry to step D4 the digit is the true quotient digit or one more. |
| Divide.DigitDifference | BigDigits/bigdigits.c:792-802 | A non-zero top digit after multiply-and-subtract means exactly that the digit was one too large, and then one add-back gives the remainder. |
| Divide.DivideDigit | BigDigits/bigdigits.c:762-804 | One round replaces the window by its remainder and returns its exact quotient digit, below the divisor, outside kept. |
| Divide.DivideLoop | BigDigits/bigdigits.c:759-806 | All rounds: the normalised dividend is quotient times divisor plus a remainder below it. |
| Divide.Normalise | BigDigits/bigdigits.c:737-757 | Step D1: both operands times the same power of two, the divisor's high bit set, nothing lost but the overflow digit, which is returned. |
| Divide.MpDivide | BigDigits/bigdigits.c:665-818 | For every u and non-zero v: u = q v + r with r < v, v restored digit for digit; a zero divisor gives -1 and zeros; all short cuts included. |
| ShortDivide.MpShortDiv | BigDigits/bigdigits.c:1349-1401 | Exact quotient and remainder by a digit, also in place; a zero divisor changes nothing. |
| Shift.MpShiftLeft | BigDigits/bigdigits.c:1053-1097 | b times 2 to the shift modulo the range; below a whole digit, the carry is the exact part shifted out. |
| Shift.MpShiftRight | BigDigits/bigdigits.c:1099-1143 | b divided by 2 to the shift; below a whole digit, the carry is the bits shifted out at the top of the word. |
| ExponentBits.BitOfNumber | BigDigits/bigdigits.c:2642-2665 | The bit under the mask in digit n is the bit of the whole number at that position. |
| ExponentBits.MpBitLength | BigDigits/bigdigits.c:992-1013 | The position of the top set bit, and 0 exactly for zero. |
| ModExp.MpModulo | BigDigits/bigdigits.c:1860-1897 | The remainder for operands of different lengths, also written over the modulus; zero for a zero modulus. |
| ModExp.MpModMult | BigDigits/bigdigits.c:1899-1921 | Product modulo m, whichever arrays coincide. |
| ModExp.ModMultTemp | BigDigits/bigdigits.c:2608-2610 | The macro's product modulo m on the two buffers it shares with every other step. |
| ModExp.ModSquareTemp | BigDigits/bigdigits.c:2608-2610 | The macro's square modulo m on the same buffers. |
| ModExp.MpModExp1 | BigDigits/bigdigits.c:2612-2677 | x to the e modulo m exactly if e is two or more, e is 1 and x is below m, or e is 0 and m above 1; the unreduced answers otherwise are as the code gives them. |
| SlidingWindow.WindowStep | BigDigits/bigdigits.c:2829-2843 | Reading one more bit of lookahead extends the window by that bit, whichever digit it lies in. |
| SlidingWindow.OddWindow | BigDigits/bigdigits.c:2829-2854 | A window that ends in a set bit lies wholly within the exponent, though zeros were read past its end, and extends the consumed bits by exactly its own. |
| SlidingWindow.BuildTable | BigDigits/bigdigits.c:2779-2796 | Table entry i is the base to the power 2i+1, up to reduction modulo m. |
| SlidingWindow.ScanExponent | BigDigits/bigdigits.c:2798-2907 | Accumulator, consumed bits and open window together always give the exponent so far, and no window is open at the end, so the result is g to the e modulo m. |
| SlidingWindow.MpModExpWindowed | BigDigits/bigdigits.c:2721-2922 | g to the e modulo m for every modulus and exponent, except 1 for exponent 0 modulo 1, as the simple form computes for exponents of two or more. |
| SlidingWindow.MpModExp | BigDigits/bigdigits.c:2595-2603 | The entry point gives the same power. |
| NumberTheory.Fermat | BigDigits/bigdigits.c:2370-2509 | For a prime p that does not divide a, a to the p-1 is 1 modulo p. |
| Primality.PrimeDescends | BigDigits/bigdigits.c:2461-2489 | For a prime, descending the chain of squares from 1 meets w-1 or ends at 1. |
| Primality.PrimePasses | BigDigits/bigdigits.c:2461-2489 | Every base between 1 and a prime passes a round. |
| Primality.OddPartUnique | BigDigits/bigdigits.c:2430-2437 | The odd part and the power of two found by the halving loop are determined by the number. |
| Primality.SplitPowerOfTwo | BigDigits/bigdigits.c:2430-2437 | w-1 is split into m times 2 to the a with m odd, in arrays. |
| Primality.TestBase | BigDigits/bigdigits.c:2461-2489 | One round with counter arrays fails exactly when the base does not pass the strong condition. |
| Primality.MpRabinMiller | BigDigits/bigdigits.c:2370-2509 | 1 exactly when every drawn base passes the strong condition; every prime gives 1, whatever is drawn; w is restored. |
| ModInverse.ExtendedStep | BigDigits/bigdigits.c:1962-1976 | A round keeps u1 v3 + v1 u3 = v and the two congruences, so no coefficient exceeds v and nothing is lost to truncation. |
| ModInverse.ExtendedEnd | BigDigits/bigdigits.c:1978-1990 | When the rounds end, u3 is the gcd, and if it is 1 the coefficient, negated as its sign says, is the inverse. |
| ModInverse.MpModInv | BigDigits/bigdigits.c:1923-2003 | Success exactly when u and v are coprime; then 0 < inv < v and inv u = 1 modulo v, or inv is 1 for v below 2; otherwise inv is 0. |
| BinaryGcd.SubtractHalve | BigDigits/bigdigits.c:2072-2082 | With both odd, replacing the larger by half the difference keeps the odd gcd, and b stays positive. |
| BinaryGcd.SubtractLoop | BigDigits/bigdigits.c:2065-2085 | The loop ends with a = 0 and b the odd gcd; b never becomes 0 while it is halved. |
| BinaryGcd.CommonTwos | BigDigits/bigdigits.c:2057-2064 | Halving both while both are even takes exactly 2 to the k out of the gcd. |
| BinaryGcd.FinalShift | BigDigits/bigdigits.c:2086-2087 | The shift back by k does not overflow. |
| BinaryGcd.MpGcd | BigDigits/bigdigits.c:2005-2096 | The greatest common divisor for all inputs, zeros included, whichever arrays coincide. |
| NumberTheory.GcdDivides | BigDigits/bigdigits.c:2005-2096 | The specification's gcd divides both numbers. |
| NumberTheory.GcdGreatest | BigDigits/bigdigits.c:2005-2096 | Every common divisor divides it. |
| Roots.SqrtStep | BigDigits/bigdigits.c:2128-2140 | From an iterate at or above the root, the step goes strictly down or stops at the root, unless the operand is all ones. |
| Roots.MpSqrt | BigDigits/bigdigits.c:2098-2152 | The integer square root if and only if n <= 1 or n+1 fits the digits; otherwise 0. |
| Roots.CubeStep | BigDigits/bigdigits.c:2184-2198 | The step goes strictly down from an iterate at or above the root, and stops at the root exactly if the first sum converges. |
| Roots.HalfRangeFails | BigDigits/bigdigits.c:2154-2210 | An input that fails at every length: half the range, for which the first iterate and the answer are 0. |
| Roots.MpCubeRoot | BigDigits/bigdigits.c:2154-2210 | The integer cube root if and only if n <= 1 or `Converges`, a condition on n and the range that 2n in range implies; otherwise the wrapped first iterate. |
| Jacobi.MpShortMod | BigDigits/bigdigits.c:1403-1426 | The remainder by a digit, found from the top down without changing the number. |
| JacobiSymbol.SymbolRange | BigDigits/bigdigits.c:2212-2297 | For odd n >= 3 and every a, the recursion gives -1, 0 or 1, and 0 exactly when gcd(a, n) > 1. |
| JacobiSymbol.SymbolIsJacobi | BigDigits/bigdigits.c:2212-2297 | The recursion on a and n, which never factors n, is the product of Legendre symbols over any list of odd primes whose product is n. |
| JacobiSymbol.Factored | BigDigits/bigdigits.c:2212-2297 | Every odd n >= 3 has such a list. |
| JacobiSymbol.SymbolIsLegendre | BigDigits/bigdigits.c:2212-2297 | For an odd prime, the recursion tells multiples, squares and non-squares apart. |
| JacobiSymbol.SymbolIsPower | BigDigits/bigdigits.c:2212-2297 | For an odd prime n, the recursion is a to the (n-1)/2 modulo n. |
| JacobiSymbol.SymbolMultiplies | BigDigits/bigdigits.c:2212-2297 | It is multiplicative in a. |
| JacobiSymbol.SymbolOfProduct | BigDigits/bigdigits.c:2212-2297 | It is multiplicative in n. |
| JacobiSymbol.SymbolPeriodic | BigDigits/bigdigits.c:2212-2297 | It depends on a modulo n only. |
| QuadraticReciprocity.SignMultiplies | BigDigits/bigdigits.c:2212-2297 | The sign of Gauss's lemma, counted over half the residues of any odd n, is multiplicative. |
| QuadraticReciprocity.SignOfTwo | BigDigits/bigdigits.c:2225-2297 | Its value for 2 is the one the routine takes from n modulo 8. |
| QuadraticReciprocity.Reciprocity | BigDigits/bigdigits.c:2225-2297 | The law of quadratic reciprocity, by counting lattice points: the sign the routine takes from a and n modulo 4. |
| QuadraticReciprocity.Gauss | BigDigits/bigdigits.c:2212-2297 | For a prime p, a to the (p-1)/2 is the sign modulo p. |
| QuadraticResidues.Wilson | BigDigits/bigdigits.c:2212-2297 | Wilson's theorem, by pairing each residue with its inverse. |
| QuadraticResidues.SignIsResidue | BigDigits/bigdigits.c:2212-2297 | Euler's criterion: the sign is 1 exactly for squares modulo the prime. |
| Jacobi.MpJacobi | BigDigits/bigdigits.c:2212-2297 | For odd n >= 3 and every a, a >= n included, the recursion over mutable temporaries ends with the Jacobi symbol: the product of the Legendre symbols of a for the prime factors of n. |
| Convert.TakeDigit | BigDigits/bigdigits.c:1605-1608 | Up to a digit's worth of octets, the last first, gives their number. |
| Convert.MpConvFromOctets | BigDigits/bigdigits.c:1590-1612 | The number of the octets modulo the digits' range, for any lengths; the count returned is the least number of digits the octets take, or all there are, and that many digits hold the number. |
| Convert.MpConvToOctets | BigDigits/bigdigits.c:1614-1640 | The octets hold the number modulo their range, padded with zeros; the count returned is exact. |
| Convert.GiveDigit | BigDigits/bigdigits.c:1631-1633 | A digit's octets written from the end of the buffer, as many as there is room for, and no other octet. |
| Convert.MulAdd | BigDigits/bigdigits.c:1714-1723 | One in-place Horner step on an array of base-b digits: times mul plus add, modulo the array's range. |
| Convert.Rebase | BigDigits/bigdigits.c:1714-1723 | The Horner loop turns octets into base-10 or base-16 digits of the same number, modulo their range. |
| Convert.ConvToBase | BigDigits/bigdigits.c:1655-1765 | The string is the number's digits without leading zeros, each character by its code, cut to the buffer, and the full length is returned; what follows the buffer is kept if and only if the number is not zero, the buffer is not of one character, or a terminator stood there already. |
| Convert.PastTheBuffer | BigDigits/bigdigits.c:1694-1700 | Zero written to a buffer of one character overwrites the character after it. |
| Convert.ConvFromString | BigDigits/bigdigits.c:1767-1855 | The value of the characters that are digits, modulo what the allotted octets and then the digits can hold; the count returned is what the octets allotted take, none for the empty string, and that many digits hold the number. |
| Convert.WriteAndRead | BigDigits/bigdigits.c:1749-1855 | The two routines one after the other: in hexadecimal the number read is the number written, always; in decimal if and only if the octets allotted hold it, and always up to 1810 characters. |
| Convert.ShortDecimal | BigDigits/bigdigits.c:1767-1809 | Up to 1810 characters the octets allotted hold the number. |
| RadixStrings.DigitsUnique | BigDigits/bigdigits.c:1725-1741 | Digits in range without a leading zero are those of the number they stand for, and no others. |
| RadixStrings.DigitAt | BigDigits/bigdigits.c:1725-1741 | The k-th digit of a number is the number divided by that power of the base, modulo the base. |
| RadixStrings.TextAt | BigDigits/bigdigits.c:1655-1752 | The k-th character written has code 48 + d for such a digit d below 10, and 97 + d - 10 from there. |
| RadixStrings.TextValue | BigDigits/bigdigits.c:1707-1855 | The string written for a number has its value, no leading zero and the least length. |
| RadixStrings.ReadAt | BigDigits/bigdigits.c:1788-1842 | By codes: 48 to 57, and in base 16 also 97 to 102 and 65 to 70, carry the value on by that digit, and every other character is skipped. |
| RadixStrings.CaseDoesNotMatter | BigDigits/bigdigits.c:1831-1838 | Hexadecimal letters are read in either case. |
| Convert.HexRoundTrip | BigDigits/bigdigits.c:1758-1855 | Every number written in hexadecimal is read back. |
| Convert.DecimalRoundTrip | BigDigits/bigdigits.c:1749-1809 | A number written in decimal is read back if and only if the octets allotted to the string can hold it. |
| Convert.NinesAreCutOff | BigDigits/bigdigits.c:1767-1809 | A string of 1811 nines is not. |
| DecimalLengths.EnoughDigits | BigDigits/bigdigits.c:1709-1712 | ceil(2.40824 n) decimal digits hold every number of n octets, for every n. |
| DecimalLengths.TooFewOctets | BigDigits/bigdigits.c:1783-1786 | ceil(0.41524 n) octets do not hold every number of n = 1811 decimal digits. |
| DecimalLengths.EnoughOctets | BigDigits/bigdigits.c:1783-1786 | For n up to 1810 they do: a length that fell short would be a fraction between two Farey neighbours. |
| Bigds.Bigd.constructor | BigDigits/bigd.c:72-88 | A new object stands for 0 and satisfies the representation invariant. |
| Bigds.Bigd.Resize | BigDigits/bigd.c:109-185 | Room for the new size, zeros up to it, and the same number unless it is cut; what becomes of the first digit is exact. |
| Bigds.BdShortAdd | BigDigits/bigd.c:436-458 | The sum, with whatever first digit an empty object holds read as its value. |
| Bigds.BdAdd | BigDigits/bigd.c:460-491 | The exact sum and carry, the operands keeping their value; the invariant holds afterwards if and only if an operand has digits or the result had no stale one. |
| Bigds.StaleDigit | BigDigits/bigd.c:436-491 | A sequence of calls after which 0 + 0 + 1 is 6. |
| Bigds.BdShortSub | BigDigits/bigd.c:512-526 | The difference, or its wrap with a borrow exactly when the digit is larger. |
| Bigds.BdSubtract | BigDigits/bigd.c:528-552 | The difference, or its wrap with a borrow exactly when the second operand is larger; the operands keep their value. |
| Bigds.BdShortMult | BigDigits/bigd.c:587-608 | The exact product by a digit, and exactly when the invariant holds afterwards. |
| Bigds.BdMultiply | BigDigits/bigd.c:610-636 | The exact product, operands kept, and exactly when the invariant holds afterwards. |
| Bigds.BdMultiplySafe | BigDigits/bigd.c:638-654 | The exact product whichever objects coincide, always with the invariant. |
| Bigds.BdSquare | BigDigits/bigd.c:656-674 | The exact square, with the invariant. |
| Bigds.BdSquareSafe | BigDigits/bigd.c:676-692 | The exact square, also into its own operand. |
| Bigds.BdPower | BigDigits/bigd.c:694-718 | g to the n, by repeated squaring over objects that are resized on the way, if and only if the result is another object, n is 0 or g is 1; in place the answer is always 1. |
| Bigds.BdDivide | BigDigits/bigd.c:768-788 | Quotient and remainder objects with u = q v + r and r < v, the divisor kept; zeros for a zero divisor. |
| Bigds.BdModulo | BigDigits/bigd.c:837-855 | The remainder object, also written over the modulus, with the invariant; 0 for a zero modulus. |
| Bigds.BdShiftLeft | BigDigits/bigd.c:917-941 | b times 2 to the s, exact for every s, since the room made suffices. |
| Bigds.BdCompare | BigDigits/bigd.c:384-402 | The order of the two numbers, whatever their sizes. |
| Bigds.BdSetEqual | BigDigits/bigd.c:417-425 | A copy of the number. |
| Bigds.BdSetZero | BigDigits/bigd.c:427-434 | Zero, with the invariant exactly if the object had digits or a zero first digit, as only digits in use are cleared. |
| Bigds.BdSetShort | BigDigits/bigd.c:274-282 | The digit as a number, zero having no digits. |
| BigdRuns.ApplyLong | BigDigits/bigd.h:78-124 | Each operation with two operands, under the overlap rules of its comment, gives the result on the integers and keeps the invariant if and only if the condition checked before it holds; the arrays of all operands stay apart. |
| BigdRuns.ApplyShort | BigDigits/bigd.h:78-135 | The same for each operation with one operand or none. |
| BigdRuns.IsExact | BigDigits/bigd.c:436-718 | The condition is one a caller can check before the call. |
| BigdRuns.StepDivide | BigDigits/bigd.c:768-788 | A division changes quotient and remainder and nothing else, also of a number by itself. |
| BigdRuns.Run | BigDigits/bigd.c:109-941 | Any sequence of calls on any set of objects stands for the same operations on the integers, up to the first call before which the condition fails. |
| SpExtras.SpModMult | BigDigits/spExtras.c:25-35 | Product of two digits modulo a third. |
| SpExtras.SpGcd | BigDigits/spExtras.c:57-117 | The greatest common divisor of any two digits, zeros included. |
| SpExtras.SpModInv | BigDigits/spExtras.c:257-302 | Success exactly when u and v are coprime; then 0 < inv < v and inv u = 1 modulo v, or inv is 1 for v below 2; otherwise inv is 0; wrapping q v1 loses nothing. |
| SpExtras.SpModExpK | BigDigits/spExtras.c:208-227 | x to the e modulo d from the low bit up, exactly if the exponent is not 0 or the modulus not 1. |
| SpExtras.SpModExpB | BigDigits/spExtras.c:229-255 | x to the e modulo m from the top bit down, exactly for exponents above 1, for exponent 1 with a base below m, and for exponent 0 with the base 1, or 0 for modulus 1. |
| SpExtras.SpIsPrime | BigDigits/spExtras.c:124-202 | 1 exactly when no small prime divides w and every drawn base passes; a prime is accepted if and only if it is above 19. |
| Scopes.VarTable.Register | src/compile.c:657-696 | A name gets the next index once; flags accumulate and other names are untouched. |
| Scopes.VarTable.DecideParams | src/compile.c:1332-1345 | Parameters become local at their own index, whatever order the table is visited in. |
| Scopes.VarTable.SearchBlockVar | src/compile.c:1356-1406 | The upward loop finds the variable of the nearest function or block around that has the name, rebased by the levels crossed; else that of the first class or package, if it is local there; else nothing. |
| Scopes.VarTable.FindOuterVar | src/compile.c:1408-1453 | The upward loop finds the variable of the nearest scope below the package that has the name, classes apart for functions and blocks, rebased by the levels crossed; nothing if there is none or that one is global. |
| Scopes.BlockKindIs | src/compile.c:1356-1406 | What a block's name stands for, from the first scope around that settles it. |
| Scopes.OuterKindIs | src/compile.c:1408-1453 | What any other name stands for, from the nearest scope seen that has it. |
| Scopes.OuterKindNone | src/compile.c:1408-1453 | Such a name is global if no scope seen below the package has it. |
| Scopes.InsideOrNot | src/compile.c:1356-1406 | Out to the package, exactly these cases of a block's name occur. |
| Scopes.SeenOrNot | src/compile.c:1408-1453 | The same for the other names. |
| Scopes.VarTable.OuterVarSound | src/compile.c:1408-1453 | If the tables above are sound, a nonlocal found this way leads, exactly its level outward, to a table where the name is local at that slot. |
| Scopes.VarTable.BlockVarSound | src/compile.c:1356-1406 | The same for a block's variables. |
| Scopes.VarTable.DecideAuto | src/compile.c:1490-1541 | A name is resolved by its flags and context; a new local takes exactly the next slot. |
| Scopes.VarTable.DecideVarType | src/compile.c:1543-1579 | Every table of the tree is resolved, sound, and numbered 0 to count-1 with parameters first. |
| Scopes.VarTable.AddChild | src/compile.c:1615-1630 | Hanging a block's table below keeps the tables a tree. |
| Scopes.VarTable.ResolvedIsSound | src/compile.c:1490-1579 | A table whose names are resolved below sound tables is sound. |
| ScopeCompiler.PutVarsAssignedInBlock | src/compile.c:2735-2753 | Marks in the top table exactly the names assigned in a block or in the blocks below it, parameters excepted. |
| ScopeCompiler.PutVarsAssignedInInnerScope | src/compile.c:2718-2733 | The same over all the blocks of a scope. |
| ScopeCompiler.StoredBelow | src/compile.c:2718-2761 | What the tables say is assigned in the blocks below is what the body's blocks assign. |
| ScopeCompiler.RegisterParams | src/compile.c:1289-1311 | Fails exactly for a name that occurs twice or is a function's implicit self; otherwise the names stand in order. |
| ScopeCompiler.Scan | src/compile.c:1615-1671 | The table holds exactly the names the body mentions, with their flags, and a table for each block in order. |
| ScopeCompiler.MakeVarTable | src/compile.c:1594-1613 | A tree of tables matching the body, or none exactly for a duplicated parameter at any depth of blocks. |
| ScopeCompiler.MakeVarTableOfFunc | src/compile.c:2763-2774 | Further, names assigned in blocks count as assigned in the body around them. |
| CodeObjects.UpdateOuterDepth | src/compile.c:2534-2547 | Stopping at the first body already deep enough is the same as raising every enclosing body, and keeps each at least the inner one less one. |
| CodeObjects.GetMaxOuterLevel | src/compile.c:2404-2426 | The largest level a body's own variables use, exactly. |
| CodeObjects.CountLocals | src/compile.c:2339-2357 | The number of local variables is the number of slots. |
| CodeObjects.AllocLocalVarsTable | src/compile.c:2437-2485 | The table of names has each local at its index, whatever order it is visited in. |
| CodeObjects.CompileStmts | src/compile.c:2549-2604 | A body compiles, unless a parameter is duplicated somewhere in it, to a code object satisfying `Compiled`; its outer size raises the bodies around exactly. |
| CodeObjects.CompileDefine | src/compile.c:2776-2799 | The same for a function or class inside a body, in a table of its own. |
| CodeObjects.CompilePackage | src/compile.c:3860-3879 | Every package compiles, unless a parameter is duplicated, to a code tree where flags, resolution, numbering and the least sufficient outer sizes are as specified; the lemmas below say what that is, by the events of a body and the scopes around. |
| CodeObjects.CompiledVariables | src/compile.c:1615-1671 | The variables of a compiled body are its parameters, the names it mentions and, unless it is a block, those its blocks assign at any depth; each is flagged as a parameter, assigned or nonlocal exactly as they say. |
| CodeObjects.CompiledOwn | src/compile.c:1490-1541 | Local are exactly the parameters, each at its own index, and in a body that is no block the names assigned and not declared nonlocal. |
| CodeObjects.CompiledInBlock | src/compile.c:1356-1406 | Any other name of a compiled block is the variable of the nearest function or block around that has it, at its level and index, wherever that variable is in turn; else that of the first class or package if local there, else global. |
| CodeObjects.CompiledOutside | src/compile.c:1408-1453 | A name declared nonlocal, or outside blocks not assigned, is the variable of the nearest scope below the package that has it, classes apart for functions and blocks; global if there is none. |
| CodeObjects.CompiledLexical | src/compile.c:2534-2604 | At every depth of a compiled tree, an enclosing outer size is at least the inner one less one, and none exceeds the scopes around. |
| Display.Machine.GetScriptFrame | src/frame.c:220-239 | A recycled frame if the last one is large enough, or a new one: clean, with the stack and locals asked for and room for the display, and in use nowhere else. |
| Display.Frame.constructor | src/frame.c:122-164 | A new frame's slots are all undefined. |
| Display.FillOuterFrames | src/callable.c:232-246 | The display is the outer frame followed by its own display, cut to the depth asked for. |
| Display.Frame.CalledValid | src/callable.c:232-280 | A display filled from a valid outer frame is valid for the function, as the outer size is at least the inner less one. |
| Display.Machine.Call | src/callable.c:248-280 | A call runs in a new frame surrounded by the function's outer frame and its surroundings, with the stack room of the code and no local set, and keeps the machine valid. |
| Display.Machine.MakeFunction | src/eval.c:577-590 | A function made by a running body keeps its frame from being recycled, and the machine stays valid. |
| Display.Machine.CreateFrameForNames | src/eval.c:761-773 | The frame of a class, module or package body, with one local and nothing displayed. |
| Display.Machine.EnterClass | src/insts.def:208-239 | A class or module body runs in a frame without a display, which keeps the machine valid. |
| Display.Machine.EvalPackage | src/eval.c:1052-1067 | A package body starts the nest. |
| Display.Machine.Return | src/insts.def:241-255 | Returning recycles the frame exactly if no function kept it, and no frame in any display is recycled. |
| Display.Machine.GetOuterFrame | src/eval.c:519-527 | At each level of the outer size, the surrounding frame, or undefined beyond the nearest class or package body. |
| Display.Machine.LoadNonlocalIndex | src/insts.def:266-277 | Loads the slot of the surrounding frame at that level, which is in range. |
| Display.Machine.StoreNonlocalIndex | src/insts.def:257-264 | Stores in that frame only, and keeps every display. |
| Display.Machine.StoreLocalIndex | src/insts.def:45-51 | Stores in the running frame only, and keeps every display. |
| Display.NonlocalReaches | src/eval.c:519-527 | In every reachable state, a nonlocal's level and slot reach the frame of the body that has it if and only if no class body lies strictly between; otherwise the entry is undefined. |
| Display.ClassBetweenFails | src/compile.c:1408-1453 | A package whose compiled method refers two levels out, past a class. |
| DisplayRuns.Run | src/callable.c:232-280 | After any list of steps, from any valid state, every nonlocal of every frame in use is displayed at its level and slot if and only if no class body lies strictly between. |
| DisplayRuns.ValidReaches | src/eval.c:519-527 | That follows from the machine's invariant for all frames at once. |
| DisplayRuns.Do | src/callable.c:232-280 | One step does, where it is possible, what it says to the stack, the functions and the slot stored in; frames then show what the step means for bodies known by number, their surroundings and their locals. |
| DisplayRuns.Follow | src/callable.c:232-280 | After any list of steps, frames that are recycled and found through displays hold the bodies, surroundings and values that lexical scoping gives with no frames at all, where each body ever entered has locals of its own. |
| DisplayRuns.EveryMachineShows | src/frame.c:220-239 | Every valid state is one that such a run can begin with. |
| DisplayRuns.RunProgram | src/eval.c:1052-1067 | From the start, the same for every list of steps. |
| DisplayRuns.LoadName | src/insts.def:266-277 | A nonlocal read after any run has the value that scoping without frames gives it. |
| DisplayRuns.ClassBetweenRuns | src/eval.c:519-527 | A package compiled and run into a method where the display has nothing at the level of its variable. |
| Coroutines.Thread.constructor | src/coroutine.c:329-347 | The initial state is valid. |
| Coroutines.Thread.NewCoroutine | src/coroutine.c:507-526 | A new coroutine is suspended and unstarted; nothing else changes. |
| Coroutines.Thread.PushFrame | src/eval.c:41-46 | Pushes on the running segment only. |
| Coroutines.Thread.PopFrame | src/eval.c:35-39 | Pops from the running segment only. |
| Coroutines.Thread.PushJmpBuf | include/yog/thread.h:71-74 | Adds to the running segment of jump buffers only. |
| Coroutines.Thread.PopJmpBuf | include/yog/thread.h:75-78 | Removes from it only. |
| Coroutines.Context.Rebase | src/coroutine.c:370-496 | Relinking the bottom frame and bottom jump buffer puts the whole segment on its new resumer, and changes no other link. |
| Coroutines.Thread.FindBottomJmpBuf | src/coroutine.c:370-378 | The walk down the list stops at the coroutine's own last jump buffer. |
| Coroutines.Thread.TopElsewhere | src/coroutine.c:370-378 | What lies below a coroutine's segment is never its own, so the walk cannot run past or stop short. |
| Coroutines.Thread.Resume | src/coroutine.c:419-496 | A suspended coroutine runs on top of the resumer; its yield returns exactly the arguments, or nil for none; a dead one is refused and nothing changes. |
| Coroutines.Thread.Yield | src/coroutine.c:380-417 | The resumer gets back exactly its frame and jump-buffer list, and its resume returns exactly the arguments, or nil for none; the coroutine's own segments are kept. |
| Coroutines.Thread.Finish | src/coroutine.c:261-310 | The same at the end, with the returned value; the coroutine is dead, which Resume never undoes. |
| Coroutines.Thread.ResumeUndoesYield | src/coroutine.c:380-496 | A yield and the resume after it restore the whole running state, with both values passed. |
| Coroutines.OneMore | src/coroutine.c:419-496 | One coroutine resting on the running one makes one more level of the chain. |
| Coroutines.OneFewer | src/coroutine.c:251-310 | Removing the innermost leaves the levels below as they were. |
| CoroutineRuns.Do | src/coroutine.c:251-496 | One step does, where it is possible, what it says to the running segment and the active coroutines; a yield or an end gives the resumer its frame, list and values back. |
| CoroutineRuns.Run | src/coroutine.c:251-496 | Any list of calls, resumes, yields and ends, from any valid state, keeps the chain valid; a coroutine not active and not resumed keeps its frame, segments and values, and a dead one stays dead. Where all coroutines are known, the relinked segments show at the end what the steps mean on places that each have a stack of values of their own. |
| CoroutineRuns.RunProgram | src/coroutine.c:251-496 | From the start, the same for every list of steps. |
| CoroutineRuns.RunBack | src/coroutine.c:251-496 | In any run, until the coroutine running at first has left, every context below it keeps its frame and segments; when it leaves, whatever happened in between, its resumer has exactly its own jump-buffer list and frame back, with the values of that yield or end. |
| CoroutineRuns.ResumeAndRun | src/coroutine.c:419-496 | A resume and any run after it: the resumer either waits unchanged or runs again as it was, with its own list, frame and segments, and the values. |
| CoroutineRuns.YieldAndWait | src/coroutine.c:380-417 | A yield, any run that does not resume the coroutine, and the next resume, by whichever context runs then: the coroutine goes on with the frame and segments it yielded with, and the values of that resume. |
| CoroutineRuns.OwnsJmpBuf | src/coroutine.c:370-378 | Whether the running context has a jump buffer of its own can be told from the list and what the coroutine remembers. |
| CoroutineRuns.OwnsFrame | src/coroutine.c:380-417 | Whether it has a frame of its own can be told from its frame and the boundary. |
| LineTable.CalcPc | src/compile.c:2307-2329 | Every operation and label is placed at the sum of the sizes before it: the first at 0, and each right after the operation before. |
| LineTable.CountEntries | src/compile.c:2260-2272 | The first pass counts the changes of line. |
| LineTable.FillEntries | src/compile.c:2274-2299 | The second pass fills exactly as many entries, or meets the assertion, exactly as `Startable` says. |
| LineTable.StartableIff | src/compile.c:2290-2291 | The assertion is met exactly if the first operation has no line but another has. |
| LineTable.MakeLinenoTable | src/compile.c:2255-2305 | The entries partition the positions without gap or overlap, and each operation lies in an entry with its line. |
| LineTable.Lookup | src/exception.c:165-178 | The entry that contains the position before the frame's, or 0 if none does. |
| LineTable.LineOfOperation | src/exception.c:165-178 | For every position inside an operation, the table built and then read gives that operation's line. |
| Utf8.ComputeBytes | src/encoding.c:108-119 | The number of bytes that encoding writes. |
| Utf8.ConvCharFromYog | src/encoding.c:336-376 | Writes a character's octets by section 3 of RFC 3629, carried on to six octets, where told, and no others. |
| Utf8.ConvFromYog | src/encoding.c:121-138 | The encoding of the whole string by the same standard, and a terminator. |
| Utf8.EncodedStandard | src/encoding.c:336-376 | The bytes of a character, made with shifts, masks and tags, are as numbers those of section 3 of RFC 3629, carried on to six octets. |
| Utf8.FirstTells | src/encoding.c:336-376 | Every octet after the first lies in 0x80 to 0xbf, and the first does not. |
| Utf8.CountChars | src/encoding.c:96-106 | Steps over the bytes by the lengths the first bytes give. |
| Utf8.CharBytesNumber | src/encoding.c:253-268 | The length by the first byte, as a number: 2 from 0xc0, 3 from 0xe0, 4 from 0xf0, 5 from 0xf8, 6 from 0xfc, else 1. |
| Utf8.ConvToYog | src/encoding.c:140-155 | The decoding of the whole range. |
| Utf8.DecodedNumber | src/encoding.c:270-301 | What is read from any bytes whatever, as a number: the bits that each byte adds and their weights, the third of four bytes having the weight of the second. |
| Utf8.DecodedEncoded | src/encoding.c:270-376 | What is left of any character after encoding and decoding, bit by bit. |
| Utf8.RoundTripChar | src/encoding.c:270-376 | A character survives if and only if it is `Faithful`: all below 0x10000, some above. |
| Utf8.RoundTrip | src/encoding.c:96-155 | For every string, counting the encoding gives its length, and decoding it gives the string back if and only if all characters are faithful. |

## Left out

- SinglePrecision.SpMultSub: operands are half digits, as the code's comment says.
- SinglePrecision.SpDivide: the two-digit dividend and divisor are parameters, the two result digits out-parameters; the assembly and 64-bit-type builds are not modelled.
- Shift.MpShiftLeft: the carry of a shift by a whole digit or more is not specified, and a shift past the end of the array by more than its length is not allowed, as the code then reads outside it.
- Shift.MpShiftRight: as for MpShiftLeft.
- ExponentBits.MpBitLength: masks are modelled as bit positions.
- Divide.MpDivide: quotient and remainder are apart from the operands, as the code's own comment requires, and the operands are one array only with one length; the other routines state which arrays may coincide.
- Primality.MpRabinMiller: the drawn digits are a parameter; for w = 2 with t > 0 the draw loop of the code does not end, which the precondition excludes by demanding draws below w.
- SpExtras.SpIsPrime: the drawn bases are a parameter; for w = 1 the code does not return, and it is excluded.
- Convert.ConvToBase: the length factor is taken in exact arithmetic rather than floating point; where the stray character is written, the memory after the buffer must exist.
- Convert.ConvFromString: strings are given without terminator.
- Bigds.BdPower: the exponent is not bounded to 16 bits.
- Bigds.BdAdd: the arrays of distinct objects are distinct, as allocation makes them; every operation keeps them so.
- BigdRuns.Run: the safe variants of sum, difference, division and remainder, which copy and call the plain ones, are not among the operations.
- DisplayRuns.Run: steps that are not possible in a state are left out of the run; what the steps compute besides frames and displays is not modelled.
- CoroutineRuns.Run: likewise, and a resume of a coroutine that is already running is left out.
- ScopeCompiler.Scan: a body is the sequence of names it stores, uses or declares nonlocal, its blocks and its functions and classes; expressions in defaults count among these, and decorators and statement kinds are not told apart. Names are numbers.
- CodeObjects.CompilePackage: instructions, constants and exception tables of the code objects are not modelled; the error for a duplicated parameter is an absent result.
- CodeObjects.CompileDefine: the table of a function or class is not entered among the inner tables of the body around it, where the code never reads it again.
- Display.Machine.Call: argument binding leaves the locals undefined; values other than frames are integers.
- Display.Machine.EnterClass: make_class and make_module act alike here; loads and stores by name in the frame's table are not modelled.
- Display.Machine.LoadNonlocalIndex: the error for an undefined value is left to the caller.
- Display.Machine.GetScriptFrame: frames of C functions and finish frames are not modelled.
- Coroutines.Thread.Resume: the code does not refuse to resume a running coroutine, which would tie the chain into a loop; not doing so is the caller's obligation. Switching stacks is atomic.
- Coroutines.Thread.Yield: the coroutine has a jump buffer and a frame of its own, which coroutine_main gives it. Errors that jump out of a coroutine are not modelled.
- Coroutines.Thread.Finish: a long jump out of coroutine_main is not modelled.
- LineTable.CalcPc: positions and sizes are unbounded.
- Utf8.ConvToYog: reads only within the array, which `Readable` demands; the code trusts the first byte of each character.
- Lengths, counters and sizes are unbounded in all modules; allocation does not fail and memory is not wiped.
- mpIsPrime, bdIsPrime and prime generation: trial division and random search around Miller-Rabin.
- mpSetBit, mpGetBit, mpModPowerOf2: their masks have no defined value for wide digits.
- bdSqrt, bdCubeRoot, bdGcd, bdJacobi, bdModExp and the conversions of bigd.c: wrappers that resize and call what is modelled.
- Bitwise operations and signed numbers (mpXorBits, mpChs, src/bignum.c): easy or without one integer specification.
- Random sources, printing, and the USE_SPASM and 64-with-32 builds.
- Opcode emission and execution, exception tables, foreign calls, files, and the Shift_JIS and EUC-JP encodings.
- Array, Binary and Dict: growth and copying only.
