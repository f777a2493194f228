# Verification of the iv core library

These Dafny modules model the algorithmic core of the iv JavaScript engine library and prove what its
components promise. Each file is one component.

| files | source | what is proved |
|---|---|---|
| `Basics` | | optional values and reversal, shared by the others |
| `Naturals`, `Words`, `BigNum`, `Quotient` | `iv/dtoa_bigint.h` | word-vector arithmetic is exact; one-digit division is exact |
| `Decimals`, `DigitLoops`, `Scaling`, `FixedPoint`, `Doubles` | `iv/dtoa_bigint.h` | shortest and fixed decimal conversion of a double, from its two words and the logarithm estimate to the digits |
| `ScopeTree`, `Environments` | `iv/environment.h`, `iv/ast.h`, `iv/parser.h` | the incremental scope pass equals a declarative analysis of the tree; heap placement is exact |
| `HashMap` | `iv/qhashmap.h` | the open-addressing table refines a plain map over every run |
| `Precedence`, `Grammar` | `iv/parser.h` | the parser reads what the productions of ECMA-262 derive; printer and parser are inverse over ten levels; when the printed form is shortest; folding keeps the meaning |
| `Numbers` | `iv/conversions.h`, `iv/parser.h` | conversion to 32 bits and the folded integer operators are the standard's |
| `Characters`, `Escapes`, `Tokens`, `Lexing`, `Codes` | `iv/lexer.h`, `iv/conversions.h` | quoting and pattern escaping against the scanners; the lexer finds the one tokenization there is; what every character means, as code units |
| `Transcoding` | `iv/unicode.h` | UTF-8 and UTF-16 transcoding is a bijection between the well-formed strings |
| `Calendar` | `iv/date_utils.h` | years, months and fields of every integer time, and back |
| `Regions` | `iv/alloc.h` | region allocation over every trace |
| `Interning` | `iv/symbol_table.h`, `iv/symbol_fwd.h`, `iv/conversions.h` | interning is canonical, and index strings are numbers |
| `RingList` | `iv/intrusive_list.h` | the circular list is a sequence |

## How to read the main results

**Decimal conversion.** `Val` is the number a vector of 32-bit words denotes; every loop is proved against it,
including the 64-bit wrap-around of its borrows. `Interval(v, s, lo, hi, closed)` is the set of decimals that read
back as the value v / s. `Decimals.Shortest` says that the digits lie in it and that `NoShorter` decimal does, at
any exponent; `Closest(I, n, f)` says that n units of 10^-f are nearest to v / s. `Doubles.ShortestFor` puts them
together for a double m * 2^q: the interval reaches half a unit of the last place up and down, or half as far down from
a power of two. `Doubles.NoDoubleBetween` and `Midpoints` show that these are the midpoints to the neighbouring doubles.
`ShortestOfWords` and `FixedOfWords` begin with the words of the double.

**Scopes.** `ScopeTree` defines the references of a tree by paths (`RefersOut`, `Crosses`, `Trapped`), and
`Analyze` computes what resolution must find; `HeapPlacement`, `ArgumentsPlacement` and `NeedsHeapScope` say what
that is in terms of paths alone (`Binds`, `KeptForArguments` and `ReferredAcross` speak of nodes that a path leads to),
in both directions. `Environments` holds the mutable chain of environments and the
scopes as the parser drives them; `Parser.ParseProgram` ends with exactly `Analyze`.

**Hash map.** `Contents` is the abstract map of a table. `Shifting` is the state of the deletion loop: apart from
the gap no search is broken, and no entry scanned so far needs the gap.

**Precedence.** `Parse`, `ParseUnary` and `Loops` are the grammar of levels as functions on tokens; the class
`Parser` reads with its loops what they read. `Grammar.Derives` are the productions of sections 11.4 to 11.11 of
ECMA-262, each with its own operators, and `Grammar.ParseIsGrammar` says that `Parse` reads what they derive. `Fold` is
what literal reduction makes of a tree. `FollowsStandard` says what ECMA-262 says of operators on literals; only for
+ - * / of doubles, which round, `Agrees` takes the machine to do what the folder does.

**Numbers.** `Carried` is what the parser computes for an operator on number literals, with its casts, remainders
and masks; `Standard` is what sections 9.5, 9.6, 11.4.8, 11.7 and 11.10 of ECMA-262 say, one bit of the result after
the other. A word is a natural number below 2^32, and an integer has its bits in two's complement.

**Lexer.** `Tokens.TokenAt` says which token, if any, is at a place and where it ends, and what is illegal there;
`Tokens.Trivia` says what may be skipped. `Lexing.Lexer.Next` is proved to return what they say, and
`Tokens.TokensUnique` proves that they leave no choice. `Codes` says in numbers of code units what the escape
sequences, literals and punctuators are.

**Transcoding.** `Denoted` and `DenotedPair` are the numbers of octets and surrogates, each part counted by its place,
as in section 3 of RFC 3629 and section 2.2 of RFC 2781.

**Regions.** `Layout` is the state seen from outside: live blocks of the underlying heap, arenas with their fill
positions, large blocks and the blocks given out. `Sound` says that all of these are aligned, in bounds and
pairwise disjoint; every operation keeps it. `Placed` is what a caller has of it.

## Where the code differs from what one would expect

These are proved as they are in the code.

- The digit loop on operands of its own can miss the nearest of the shortest digits: when the first digit is 9, the
  remainder plus mhi equals S and 9 itself is inside and nearer, it writes 1 with a larger exponent, unless the
  remainder is zero and S has a single word (`DigitLoops.OvershootsNine`, `NearestUnlessNine`; `OvershotRun` is such
  a run). The operands made of a binary value are never of that kind (`Scaling.NineIsNotOvershot`), so the digits of
  every double are nearest (`Doubles.ShortestConversion`).
- A digit string longer than ten characters can be accepted as an array index although its number does not fit:
  only the last step is tested for overflow, after the ones before have wrapped (`Interning.WrappedIndex`,
  `Overlong`). Two strings then share a symbol exactly when they are `Interning.Confused`.
- A JSON-quoted string is not always a string literal: U+2028 and U+2029 stay as they are
  (`Escapes.QuoteRoundTrip` gives the exact condition). An escaped pattern is closed by its slash only under the
  condition of `Escapes.PatternRoundTrip`.
- Where `in` is not allowed, the printed form of an expression is the shortest exactly when it has at most one pair of
  parentheses for the sake of an `in`; otherwise one pair around the whole is shorter (`Precedence.PrintIsShortest`,
  `TwoPairsForIn`).
- A unary plus before a number literal is dropped even when reduction is off (`Precedence.UnreducedTree`).
- Inserting a range into the list reverses it (`RingList.List.InsertRange`).
- In a comment over several lines, a line terminator right behind the opening is not noted. So a closed comment has a
  line terminator and is not noted exactly when its only one is there (`Tokens.UnnotedTerminator`), and `-->` behind
  it is read as two operators and not as a comment (`Tokens.UnnotedRun`, against `NotedRun`).
- A direct call to eval inside a with or catch block marks the environment of that block as calling eval, and the
  function around it only as containing such a call (`ScopeTree.NeedsHeapScope` has both conditions).
- The getters of a date that is not a number return whatever fields were left (`Calendar.DateInstance.Year`,
  `MonthAndDate`).

## Model

| member | source | states |
|---|---|---|
| Words.LongerIsBigger | iv/dtoa_bigint.h:453-457 | a number with more words, and no zero word on top, is the larger; the size test of `Compare` is right |
| Words.HighestDifferenceDecides | iv/dtoa_bigint.h:458-470 | of two vectors of one length the highest word that differs decides the comparison |
| Words.ValInjective | iv/dtoa_bigint.h:458-470 | two vectors of one length that denote the same number are equal word by word |
| Words.MulAddFits | iv/dtoa_bigint.h:292-297 | a product of two words plus two more words never overflows 64 bits, and its upper half is a word |
| Words.MulAddVal | iv/dtoa_bigint.h:380-393 | the word loop of `MultiAdd`, its carry included, denotes s * m + a |
| Words.AddRowStep | iv/dtoa_bigint.h:289-298 | one word of a multiplication row keeps "done so far + still to be added" constant, without 64-bit overflow |
| Words.ShlAt | iv/dtoa_bigint.h:321-330 | each word of a shifted vector is made of the kept bits of one word and the bits handed up by the word below |
| Words.ShlVal | iv/dtoa_bigint.h:321-330 | shifting by 0 < k < 32 bits multiplies the denoted number by 2^k |
| Words.ShlTop | iv/dtoa_bigint.h:330-330 | a shift leaves at most one zero word on top, so one conditional drop restores normal form |
| Words.ValShiftWords | iv/dtoa_bigint.h:331-338 | n zero words below a vector multiply it by 2^(32 n) |
| Words.BorrowStep | iv/dtoa_bigint.h:436-438 | in 64-bit wrap-around arithmetic bit 32 of the difference is exactly the borrow and the low half exactly the digit |
| Words.SubMulVal | iv/dtoa_bigint.h:590-598 | the side-by-side carry and borrow loops denote b - q * S |
| BigNum.BigInt.constructor | iv/dtoa_bigint.h:199-203 | the vector with the single word i |
| BigNum.BigInt.Mul | iv/dtoa_bigint.h:271-306 | the exact product, in normal form (an empty vector for zero), for operands in either order |
| BigNum.BigInt.AddRows | iv/dtoa_bigint.h:282-299 | all rows together add up to the product; the source skips rows for zero words |
| BigNum.BigInt.AddRow | iv/dtoa_bigint.h:288-298 | one row adds y times the other operand at its offset and overwrites the word above, which is still zero |
| BigNum.BigInt.StripTop | iv/dtoa_bigint.h:301-304 | zero words on top are dropped and nothing else changes |
| BigNum.BigInt.MulAssign | iv/dtoa_bigint.h:266-269 | the product replaces this number |
| BigNum.BigInt.MultiAdd | iv/dtoa_bigint.h:380-393 | this number becomes itself times m plus a, in normal form for m > 0 |
| BigNum.BigInt.ShiftLeft | iv/dtoa_bigint.h:308-341 | this number is multiplied by 2^k; the result is in normal form exactly unless zero was shifted by whole words |
| BigNum.BigInt.ShiftBits | iv/dtoa_bigint.h:312-330 | the in-place top-down loop reads every word before it is overwritten, although source and target overlap |
| BigNum.BigInt.ShiftAndTrim | iv/dtoa_bigint.h:312-330 | the shifted words, without a zero word on top, stand above at least n others |
| BigNum.BigInt.ShiftWholeWords | iv/dtoa_bigint.h:331-335 | the in-place move by whole words keeps all words |
| BigNum.BigInt.ClearLow | iv/dtoa_bigint.h:336-338 | the vacated low words are zeroed, the others kept |
| BigNum.BigInt.Compare | iv/dtoa_bigint.h:452-471 | the sign of the result is the order of the two numbers, for operands in normal form |
| BigNum.BigInt.Diff | iv/dtoa_bigint.h:409-450 | the absolute difference in normal form, with the sign telling which operand was larger |
| BigNum.BigInt.FillDifference | iv/dtoa_bigint.h:434-444 | the two borrow loops give a - b exactly, with no borrow left over |
| BigNum.BigInt.Pow5Multi | iv/dtoa_bigint.h:533-566 | this number is multiplied by 5^k, and the shared table stays the table of powers 5^(4 * 2^i) |
| BigNum.BigInt.MulPow625 | iv/dtoa_bigint.h:544-563 | binary exponentiation over the table multiplies by 625^k |
| BigNum.Pow5Cache.constructor | iv/dtoa_bigint.h:536-536 | an empty table |
| BigNum.Pow5Cache.Ensure | iv/dtoa_bigint.h:545-562 | the table is extended by 625 or by the square of its last entry; earlier entries are untouched |
| Quotient.EstimateBound | iv/dtoa_bigint.h:587-588 | the top-word estimate is never too big, at most one too small, and one decimal digit |
| Quotient.QuotientFromEstimate | iv/dtoa_bigint.h:587-609 | after subtracting the estimated multiple one comparison settles the quotient, which stays a digit |
| Quotient.SubtractMultiple | iv/dtoa_bigint.h:589-598 | b becomes b - q * S, in place |
| Quotient.TrimRemainder | iv/dtoa_bigint.h:599-605 | leading zero words are dropped; a one-word zero becomes the empty vector |
| Quotient.Quorem | iv/dtoa_bigint.h:572-631 | exact division: returns floor(b / S), leaves b mod S in normal form, or empty exactly when S is one word that divides a b >= S |
| Decimals.NumBounds | iv/dtoa_bigint.h:1049-1100 | digits without a leading zero denote a number between 10^(n-1) and 10^n |
| Decimals.GapMeansNoShorter | iv/dtoa_bigint.h:1052-1100 | if neither neighbour on the grid of f decimals is in the interval, no decimal of up to f + 1 digits, at any exponent, is |
| Decimals.StoppingTests | iv/dtoa_bigint.h:1055-1090 | the comparisons with mlo and S - mhi say exactly whether the digit, or the digit plus one, gives a decimal in the interval |
| Decimals.GoOn | iv/dtoa_bigint.h:1093-1100 | when neither does, multiplying b, mlo and mhi by ten keeps the loop state |
| Decimals.Emit | iv/dtoa_bigint.h:1066-1091 | stopping inside the interval yields a decimal no other decimal undercuts in length |
| Decimals.EmitNine | iv/dtoa_bigint.h:1063-1088 | a nine is rounded up only as the first digit, and then 10 is in the interval and shortest |
| Decimals.NearestNeighbour | iv/dtoa_bigint.h:1074-1080 | which of the two grid neighbours is nearest, decided by twice the remainder against S |
| Decimals.HalfUpIsNearest | iv/dtoa_bigint.h:1116-1118 | rounding half up gives the nearest multiple, and the larger one on a tie |
| Decimals.NextFixedDigit | iv/dtoa_bigint.h:1102-1111 | the fixed loop writes value = digits + remainder at every place |
| Decimals.NeighboursRound | iv/dtoa_bigint.h:1116-1118 | twice the remainder against S decides between the digits and the digits plus one in the last place |
| Decimals.ExactDigits | iv/dtoa_bigint.h:1104-1106 | a division that comes out even early is already the rounded result |
| DigitLoops.RoundedUpVal | iv/dtoa_bigint.h:1119-1127 | the round-off tail adds one in the last place; dropped nines and the carry into k account for all of it |
| DigitLoops.WithoutTrailingZerosVal | iv/dtoa_bigint.h:1128-1131 | dropping trailing zeros keeps the number |
| DigitLoops.RoundOff | iv/dtoa_bigint.h:1119-1127 | the backward loop over nines computes that increment, with a string of nines becoming 1 and k + 1 |
| DigitLoops.StripZeros | iv/dtoa_bigint.h:1128-1131 | the backward loop over zeros stops at the last other digit |
| DigitLoops.CompareRemainder | iv/dtoa_bigint.h:1055-1057 | the two comparisons order the remainder against mlo, and against S - mhi, except that an empty remainder reports "below" at equality |
| DigitLoops.NextShortestDigit | iv/dtoa_bigint.h:1050-1092 | one turn of the shortest loop: the digit is the quotient, and it stops exactly when a neighbour is inside, with the choice between digit and digit + 1 spelled out |
| DigitLoops.NotYetShortest | iv/dtoa_bigint.h:1093-1100 | when the loop goes on, its state holds for one place more |
| DigitLoops.TimesTen | iv/dtoa_bigint.h:1097-1099 | b, mlo and mhi are each multiplied by ten |
| DigitLoops.FinishShortest | iv/dtoa_bigint.h:1062-1091 | every exit leaves shortest digits, and the nearest of them but for the one exception |
| DigitLoops.LastDigit | iv/dtoa_bigint.h:1084-1091 | a last digit of ten is a nine that is rounded off to 1 and k + 1 |
| DigitLoops.NextPlace | iv/dtoa_bigint.h:1049-1100 | one turn either ends with the result or grows mlo tenfold while it stays below S, so the loop ends |
| DigitLoops.ShortestDigits | iv/dtoa_bigint.h:1036-1127 | for any scaled operands the digits name a point of (v - mlo, v + mhi), endpoints only for an even mantissa, and no decimal with fewer digits lies there; they are nearest among those except when a first digit 9 is overshot |
| DigitLoops.OvershotInterval | iv/dtoa_bigint.h:1063-1088 | for 370 / 40 with half gaps 10 and 30 both 9 and 10 are inside, 9 is nearer, and it is overshot |
| DigitLoops.OvershotRun | iv/dtoa_bigint.h:1036-1127 | the loop on these operands writes shortest digits that are not nearest |
| DigitLoops.FitsDivisor | iv/dtoa_bigint.h:985-1004 | four leading zero bits in S keep a dividend below 10 S as short as S, as the division demands |
| DigitLoops.RoundLastPlace | iv/dtoa_bigint.h:1114-1131 | the final doubling and comparison round half up, trailing zeros stripped |
| DigitLoops.NextDigit | iv/dtoa_bigint.h:1103-1106 | one fixed digit; the loop ends early exactly at remainder zero |
| DigitLoops.FixedDigits | iv/dtoa_bigint.h:1101-1132 | b / S to ilim digits, half up, without trailing zeros, a carry out of the top adding one to k; it is the nearest, the larger on ties |
| Scaling.Hi0Bits | iv/dtoa_bigint.h:109-134 | the number of leading zero bits, for every word including zero |
| Scaling.Exponents | iv/dtoa_bigint.h:749-768 | the exponents given to b, to the half gap and to S differ by exactly those of the value over 10^k |
| Scaling.PowerOfFive | iv/dtoa_bigint.h:970-973 | S before its shift is 5^s5, with the bit length of its top word |
| Scaling.NormalizingShift | iv/dtoa_bigint.h:991-1004 | the shift brings the bit length to 28 modulo 32 |
| Scaling.FourLeadingZeros | iv/dtoa_bigint.h:985-990 | then the top word has exactly four leading zero bits |
| Scaling.Divisor | iv/dtoa_bigint.h:970-1011 | S is 2^(s2+i) 5^s5 with a top word in [2^27, 2^28) |
| Scaling.Numerators | iv/dtoa_bigint.h:956-968 | b and the half gap become their multiples over S |
| Scaling.GapOperands | iv/dtoa_bigint.h:940-955 | with these exponents b / S, mlo / S and mhi / S are the value and half the gaps to its neighbours, over the corrected power of ten |
| Scaling.CorrectEstimate | iv/dtoa_bigint.h:1012-1047 | a too large estimate of k is found by one comparison and corrected by a factor ten in all operands |
| Scaling.ScaledOrder | iv/dtoa_bigint.h:1013-1013 | b >= S holds exactly when the value is at least 10^k |
| Scaling.ScaleForShortest | iv/dtoa_bigint.h:749-1047 | from mantissa, exponent and an estimate that is right or one too large: operands that mean the value and its half gaps, half as large below a power of two |
| Scaling.OddPartUnique | iv/dtoa_bigint.h:749-768 | a power of two times an odd number is so in one way only |
| Scaling.ScaledLower | iv/dtoa_bigint.h:940-955 | a value scaled by 10^k may be counted in halves of its unit |
| Scaling.NineIsNotOvershot | iv/dtoa_bigint.h:1063-1088 | no operands of a binary value end a first digit 9 exactly at the upper midpoint with 9 nearer: an odd part would have to be a power of ten |
| Scaling.DigitsAreNearest | iv/dtoa_bigint.h:1036-1127 | so for a binary value the one exception of the digit loop never arises |
| Scaling.DigitsFromEstimate | iv/dtoa_bigint.h:749-1132 | scaling and digit loop together, for the half gaps that the bit length asks for |
| FixedPoint.QuotientRounds | iv/dtoa_bigint.h:1116-1118 | half-up rounding of the scaled quotient is the nearest multiple of 10^u to the value itself |
| FixedPoint.DigitsWritten | iv/dtoa_bigint.h:1101-1132 | ilim digits write the value in units of 10^(k - ilim + 1) |
| FixedPoint.CarryOnly | iv/dtoa_bigint.h:1028-1033 | asked for the place just in front of the value, comparing b with 5 S rounds it to one unit or to nothing |
| FixedPoint.NothingLeft | iv/dtoa_bigint.h:1025-1027 | asked for a place further in front, zero is the nearest multiple |
| FixedPoint.Numerator | iv/dtoa_bigint.h:965-967 | b is multiplied out by its powers of 5 and 2 |
| FixedPoint.Scale | iv/dtoa_bigint.h:749-1021 | the scaled quotient is the value over 10^k and lies in [1, 10) |
| FixedPoint.FixedConversion | iv/dtoa_bigint.h:777-1144 | end to end: for the value c * 2^be the digits write the nearest multiple of 10^u, the larger on a tie, with u fixed by the places or the figures asked for |
| FixedPoint.ScaledPlaces | iv/dtoa_bigint.h:1107-1110 | f more places are a factor 10^f in the scaled numerator |
| FixedPoint.ScaledCoarser | iv/dtoa_bigint.h:1028-1028 | f fewer places are a factor 10^f in the denominator |
| Doubles.HalfUnit | iv/dtoa_bigint.h:945-945 | the half gap asked for is half a unit of the last place of the double, normal or not |
| Doubles.SameEstimate | iv/dtoa_bigint.h:735-747 | comparing with a power of ten does not depend on how the value is split |
| Doubles.ShortestConversion | iv/dtoa_bigint.h:749-1132 | end to end: for the double m * 2^q no digits between the midpoints to its neighbours, stated in m and q, are fewer, and none of that length are nearer; the ends count exactly when m is even |
| Doubles.Low0Bits | iv/dtoa_bigint.h:136-173 | the number of trailing zero bits, 32 for zero, and the word without them |
| Doubles.DenotesDouble | iv/dtoa_bigint.h:205-217 | the words of section 3.4 of IEEE 754 denote a double; its parity and whether it is a power of two can be read off them |
| Doubles.Shifted | iv/dtoa_bigint.h:218-238 | the 53 bits in two words without their trailing zeros |
| Doubles.SplitDouble | iv/dtoa_bigint.h:205-247 | a double is split exactly into a number and an exponent not below its own, with the bit length of the number |
| Doubles.ShortestOfWords | iv/dtoa_bigint.h:646-1147 | from the two words: sign, zero, and the shortest and nearest digits of the double they denote |
| Doubles.SameNearest | iv/dtoa_bigint.h:1101-1132 | rounding does not depend on how the value is split |
| Doubles.FixedOfWords | iv/dtoa_bigint.h:646-1147 | from the two words: sign, zero, and the nearest multiple of 10^u, the larger on a tie |
| Doubles.NoDoubleBetween | iv/dtoa_bigint.h:1036-1046 | no double lies between m * 2^q and (m + 1) * 2^q, nor between it and the one before, which is closer below a power of two |
| Doubles.Midpoints | iv/dtoa_bigint.h:1036-1046 | half a unit above, and half or a quarter of one below, lie the midpoints to those neighbours |
| ScopeTree.OccurrenceIsFree | iv/environment.h:75-204 | every reference that resolves past the nodes is in the computed map, marked if it crosses a boundary |
| ScopeTree.FreeHasOccurrence | iv/environment.h:75-204 | every entry of the computed map has such a reference, a crossing one if it is marked |
| ScopeTree.BindingsAreDeclared | iv/ast.h:203-256 | the bindings of a scope are exactly the names that paths of the tree bind: parameters, declarations not inside another function, and its own name; each once |
| ScopeTree.AddNewAdds | iv/ast.h:222-247 | adding names keeps bindings distinct and adds exactly the missing names |
| ScopeTree.RolledUpIs | iv/ast.h:203-256 | before resolution only parameters can be in the heap |
| ScopeTree.HeapPlacement | iv/environment.h:128-184 | a binding ends in the heap if and only if some reference to it crosses a function boundary or a with block, or it is a parameter of a function that is not strict, does not hide `arguments`, and mentions it or calls eval, all said of paths |
| ScopeTree.LeavesFunction | iv/environment.h:128-200 | what leaves a function is exactly what it does not bind, and never `arguments` |
| ScopeTree.ArgumentsPlacement | iv/environment.h:151-163 | the implicit `arguments` is in the heap if and only if no binding has its name and it is referred to across a boundary |
| ScopeTree.NeedsHeapScope | iv/environment.h:161-179 | a scope is kept exactly for eval, for `arguments` or for a reference across a boundary, all said of paths; in particular whenever it has a heap binding |
| ScopeTree.HasIs | iv/ast.h:117-134 | searching the nodes finds exactly what a path leads to without entering an inner function |
| ScopeTree.DeclaredIsBound | iv/ast.h:203-256 | the computed bindings are the names bound on paths |
| ScopeTree.ParametersAreKept | iv/ast.h:194-201 | the parameters start in the heap exactly if the function is not strict, does not hide `arguments`, and mentions it or calls eval |
| ScopeTree.LeadsIs | iv/environment.h:39-48 | eval is contained exactly if a path leads to a call of it |
| ScopeTree.InnerScopes | iv/parser.h:2040-2234 | the inner scopes are those of the functions on paths that enter no other |
| Environments.PushTwice | iv/environment.h:22-25 | two batches of references are one batch of their union, so neither order nor grouping matters |
| Environments.PushCommutesWithFlag | iv/environment.h:39-48 | recording references and recording eval calls commute |
| Environments.FlagTwice | iv/environment.h:39-48 | eval marks accumulate |
| Environments.AfterCons | iv/parser.h:204-230 | the declarative state after a list of nodes is reached node by node |
| Environments.CollectCons | iv/parser.h:505-537 | what a scope notes about a list of nodes is noted node by node |
| Environments.InsideBlock | iv/environment.h:82-109 | leaving a with or catch block has the effect the tree demands: all marked, or the catch name removed |
| Environments.InsideFunction | iv/environment.h:186-200 | what the enclosing environments see of a function is its unbound references and its eval calls |
| Environments.ResolvedIs | iv/environment.h:128-184 | a scope so resolved is the one computed from the tree |
| Environments.Environment.constructor | iv/environment.h:50-58 | a new environment on top of the enclosing ones, with nothing recorded |
| Environments.Environment.Referencing | iv/environment.h:86-108 | a reference goes up through with and catch blocks, marked by a with, stopped by a catch of that name, to the nearest function |
| Environments.Environment.Note | iv/environment.h:186-193 | the function environment keeps a mark once it is set |
| Environments.Environment.Mention | iv/environment.h:22-25 | an identifier counts as an unmarked reference from the innermost environment |
| Environments.Environment.Propagate | iv/environment.h:195-200 | references handed out of an inner function all arrive marked |
| Environments.Environment.MarkAll | iv/environment.h:195-200 | the batch is merged with every entry marked |
| Environments.Environment.RecordDirectCallToEval | iv/environment.h:39-48 | the innermost environment is marked as calling eval, it and all enclosing ones as containing it |
| Environments.Environment.NotEnclosed | iv/environment.h:50-58 | environments nest properly: none encloses itself |
| Environments.Environment.StatesAre | iv/environment.h:50-58 | the chain of states is that of the environments outwards |
| Environments.Scope.constructor | iv/ast.h:94-115 | a scope with its parameters and nothing declared |
| Environments.Scope.AddFunctionDeclaration | iv/ast.h:121-134 | a function is noted, and whether it hides `arguments` |
| Environments.Scope.RollUp | iv/ast.h:203-256 | the bindings are parameters (last of equal names first), functions, variables and the own name, without repetition |
| Environments.Scope.AddParameters | iv/ast.h:206-220 | the backward loop over the parameters keeps the last of equal names |
| Environments.Scope.AddNames | iv/ast.h:222-247 | the forward loops skip what is already bound |
| Environments.Resolve | iv/environment.h:128-184 | the scope is settled from the collected references, and everything unbound is sent outwards marked |
| Environments.Settles | iv/environment.h:128-179 | bindings, `arguments` and heap need are decided in this order and remove what they bind |
| Environments.BindReferences | iv/environment.h:141-150 | each binding takes the mark of the references to its name |
| Environments.BindAll | iv/environment.h:132-150 | the bindings are rolled up and settled, and what they bind is no longer unresolved |
| Environments.HoldArguments | iv/environment.h:151-159 | a reference to `arguments` that no binding caught is held by the function |
| Environments.DecideHeapScope | iv/environment.h:161-179 | the heap-scope rule with both kinds of eval marks |
| Environments.SendOutwards | iv/environment.h:181-183 | the rest reaches the enclosing environments marked |
| Environments.FinishFunction | iv/parser.h:2174-2220 | at the end of a function body the scope is the one the tree demands |
| Environments.Parser.ParseNodes | iv/parser.h:204-230 | over any list of nodes the environments, the scope notes and the inner scopes develop as the tree demands |
| Environments.Parser.ParseNode | iv/parser.h:879-905 | the same for one node of any kind |
| Environments.Parser.MeetIdentifier | iv/parser.h:2283-2298 | an identifier is recorded in the innermost environment, `arguments` also in the scope |
| Environments.Parser.MeetEvalCall | iv/parser.h:1682-1690 | a direct eval call is recorded in the environment and in the scope |
| Environments.Parser.Declare | iv/parser.h:431-441 | a declaration is noted in the enclosing scope, a function statement as a variable |
| Environments.Parser.MeetVariable | iv/parser.h:523-536 | a variable is noted in the scope and is no reference |
| Environments.Parser.ParseBlock | iv/parser.h:879-905 | a with or catch body is parsed in an environment of its own, which is closed again |
| Environments.Parser.ParseFunctionLiteral | iv/parser.h:2040-2234 | a function is parsed in a scope and environment of its own; the enclosing ones are restored |
| Environments.Parser.ParseFunctionBody | iv/parser.h:2174-2220 | inside it the state starts empty and ends settled |
| Environments.Parser.ParseProgram | iv/parser.h:204-230 | for every program tree the incremental pass gives every scope exactly what the declarative analysis demands |
| HashMap.SomeNull | iv/qhashmap.h:413-435 | occupancy below capacity leaves a null slot, so every probe ends |
| HashMap.InsertKeeps | iv/qhashmap.h:264-277 | filling the null slot where the probe ended keeps every key reachable and adds just that key |
| HashMap.WriteKeeps | iv/qhashmap.h:206-212 | writing a value changes that value only |
| HashMap.ClearRemoves | iv/qhashmap.h:355-360 | clearing a slot removes exactly its key |
| HashMap.MoveKeeps | iv/qhashmap.h:349-353 | moving an entry into a null slot leaves the map as it is |
| HashMap.ShiftStart | iv/qhashmap.h:315-329 | clearing the removed entry endangers only searches that pass its slot |
| HashMap.ShiftStays | iv/qhashmap.h:330-348 | an entry whose home lies cyclically behind the gap may stay |
| HashMap.ShiftMoves | iv/qhashmap.h:343-353 | an entry moved down makes its old slot the new gap, with everything scanned so far still safe |
| HashMap.ShiftStep | iv/qhashmap.h:338-353 | the cyclic interval test of the source decides between the two correctly, wrap-around included |
| HashMap.ShiftEnds | iv/qhashmap.h:330-360 | the first null slot after the gap ends every search that would have passed it |
| HashMap.PrefixGrows | iv/qhashmap.h:399-410 | reading one more slot adds its entry, which was not there before |
| HashMap.ListsAll | iv/qhashmap.h:392-410 | visiting all slots in order lists the map, each entry once |
| HashMap.AllListed | iv/qhashmap.h:459-466 | when as many entries have been read as are occupied, nothing is left |
| HashMap.QHashMap.constructor | iv/qhashmap.h:215-219 | an empty table of the given capacity |
| HashMap.QHashMap.Probe | iv/qhashmap.h:413-435 | the slot of the key, or the null slot that proves its absence with no null slot on the way |
| HashMap.QHashMap.Initialize | iv/qhashmap.h:438-445 | a fresh empty table |
| HashMap.QHashMap.Clear | iv/qhashmap.h:381-389 | all entries are gone |
| HashMap.QHashMap.Lookup | iv/qhashmap.h:254-279 | the entry of the key; inserting adds just this key, keeps all others, and leaves occupancy * 5 / 4 below capacity |
| HashMap.QHashMap.Resize | iv/qhashmap.h:448-467 | doubles the capacity and keeps the map; no insertion in it grows the table again |
| HashMap.QHashMap.InsertAgain | iv/qhashmap.h:458-463 | one entry is put back, and the table does not grow for it |
| HashMap.QHashMap.LookupWithFound | iv/qhashmap.h:282-310 | the same, with whether the key was there before |
| HashMap.QHashMap.Insert | iv/qhashmap.h:206-212 | the map becomes old[key := value] |
| HashMap.QHashMap.ShiftOne | iv/qhashmap.h:330-353 | one turn of the deletion loop keeps the deletion state and ends at a null slot |
| HashMap.QHashMap.RemoveEntry | iv/qhashmap.h:314-364 | exactly the key of the slot disappears; every other key keeps its value and stays reachable |
| HashMap.QHashMap.Remove | iv/qhashmap.h:367-378 | the same by key, with whether it was there |
| HashMap.QHashMap.NextEntry | iv/qhashmap.h:392-410 | the next occupied slot, with only null slots skipped |
| HashMap.QHashMap.Entries | iv/qhashmap.h:392-410 | iteration visits every entry once and nothing else |
| HashMap.Run | iv/qhashmap.h:254-467 | over every run of insertions, writes, look-ups of every kind, removals and clearings, the table and all answers are those of a plain map |
| HashMap.Perform | iv/qhashmap.h:254-389 | one operation steps the abstract map and answers as it does |
| HashMap.QHashMap.Fill | iv/qhashmap.h:263-268 | the null slot where the probe ended takes the key; its value stays, and every other entry too |
| Precedence.LoopStep | iv/parser.h:1300-1398 | a loop takes an operator of its level and a right operand of the next tighter level |
| Precedence.NotReduced | iv/parser.h:1403-1493 | relational, equality and logical operators are never reduced |
| Precedence.ReadsPrinted | iv/parser.h:1293-1400 | having read a printed expression the parser is in the loop of its loosest operator, before any continuation |
| Precedence.RoundTrip | iv/parser.h:1293-1400 | printing with only the necessary parentheses and parsing gives the (folded) tree back and reads exactly those tokens, for every tree, level and setting of contains_in |
| Precedence.PrintIsShortest | iv/parser.h:1293-1400 | no tokens that read as the tree are fewer than the printed ones, if and only if `in` is allowed, or at most one pair of parentheses is there for an `in`, or the tree is never read because it folds to another |
| Precedence.PairsAreWritten | iv/parser.h:1293-1400 | where `in` is not allowed the printed form is longer by exactly two tokens for each pair around an `in` |
| Precedence.NothingShorter | iv/parser.h:1293-1400 | from whatever tokens a tree is read, they are no fewer than those printed where `in` is allowed, and one pair more if a bare `in` would be left |
| Precedence.ReadIsFolded | iv/parser.h:1293-1400 | whatever is read has been folded |
| Precedence.WrappedIsRead | iv/parser.h:1800-1804 | one pair of parentheses around the whole is always read back |
| Precedence.TwoPairsForIn | iv/parser.h:1293-1400 | `(a in b) && (c in d)` is printed with eleven tokens and is also read from nine |
| Precedence.NoBareIn | iv/parser.h:1330-1338 | with contains_in false no unparenthesised `in` is consumed, for every token sequence |
| Precedence.ScanConcat | iv/parser.h:1800-1804 | the depth-counting reading used to say so is compositional |
| Precedence.FoldKeepsMeaning | iv/parser.h:1403-1493 | evaluating the folded tree gives the same value and the same effects in the same order, on every machine whose operators are those of ECMA-262 |
| Precedence.ParsedMeaning | iv/parser.h:1293-1493 | the tree that comes back from printing and parsing with folding means what the original means, on every such machine |
| Precedence.ReducedUnaryMeans | iv/parser.h:1535-1569 | reducing one unary operator keeps value and effects |
| Precedence.ReducedBinaryMeans | iv/parser.h:1403-1482 | reducing one binary operator keeps value and effects |
| Precedence.UnreducedTree | iv/parser.h:1546-1555 | with reduction off the tree comes back unchanged if and only if no unary plus stands before a number literal |
| Precedence.FoldReduces | iv/parser.h:1403-1600 | with reduction on no literal operation that could be carried out is left, and trees without one are unchanged |
| Precedence.Parser.Next | iv/parser.h:1300-1306 | one token is consumed |
| Precedence.Parser.ParseUnaryExpression | iv/parser.h:1506-1600 | reads a unary expression as the grammar does |
| Precedence.Parser.ParsePrefix | iv/parser.h:1506-1570 | a prefix operator takes a unary operand, with the three literal reductions |
| Precedence.Parser.TakeLevel | iv/parser.h:1300-1398 | one loop takes exactly the operators of its level |
| Precedence.Parser.ParseOperand | iv/parser.h:1300-1398 | the right operand is one level tighter |
| Precedence.Parser.ParseBinaryExpression | iv/parser.h:1293-1400 | the ten loops read what the grammar of levels reads, which is what the productions derive (`Grammar.ParseIsGrammar`), and stop where it stops |
| Precedence.Parser.TakeComparisons | iv/parser.h:1330-1398 | the same from the relational loop on |
| Precedence.Parser.TakeLooser | iv/parser.h:1356-1398 | the same from the bitwise loops on |
| Precedence.Parser.TakeArithmetic | iv/parser.h:1297-1398 | the same from the multiplicative loop on |
| Grammar.LevelIs | iv/parser.h:1297-1398 | the operators of each level are those of one production of ECMA-262, whose operand is the next tighter one |
| Grammar.StopsIs | iv/parser.h:1297-1398 | the rest goes on with an operator of a tighter level exactly if a production has it, `in` only where it is allowed |
| Grammar.ReadsUnary | iv/parser.h:1506-1598 | what a UnaryExpression derives is read, whatever follows |
| Grammar.ReadsDerived | iv/parser.h:1293-1400 | having read what a production derives, the parser is in the loop of its operators |
| Grammar.ParseDerives | iv/parser.h:1293-1400 | whatever is read is derived, before folding |
| Grammar.ParseStops | iv/parser.h:1297-1398 | the parser stops only where no operator it was asked for goes on |
| Grammar.ParseIsGrammar | iv/parser.h:1293-1400 | a tree and a rest are read if and only if the tokens in front of the rest derive the tree, before folding, and nothing goes on; for all tokens, levels and settings of contains_in |
| Numbers.NegatedIs | iv/parser.h:1557-1569 | the value changes its sign, zeros and infinities too, and NaN stays |
| Numbers.InRange | iv/conversions.h:213-217 | the remainder leaves less than 2^32 of the value, on its side of zero, with its integer part modulo 2^32 |
| Numbers.DoubleToInt32Is | iv/conversions.h:206-226 | for every number value, NaN and infinities included, the coded conversions are ToInt32 and ToUint32, whatever a cast out of range gives |
| Numbers.OperatorBits | iv/parser.h:1434-1450 | each bit of or, and, exclusive or is made of the two bits there |
| Numbers.WordBits | iv/conversions.h:224-226 | taking an integer modulo 2^32 keeps its 32 bits of two's complement |
| Numbers.SignBits | iv/parser.h:1467-1472 | all places above are the sign |
| Numbers.BitwiseWords | iv/parser.h:1434-1450 | or, and, exclusive or of two words are the standard's, bit by bit |
| Numbers.FlippedWord | iv/parser.h:1532-1541 | so is the complement, which is -1 - x |
| Numbers.LeftWord | iv/parser.h:1453-1458 | so is the left shift, with zeros coming in and high bits lost |
| Numbers.RightWord | iv/parser.h:1467-1472 | so is the right shift filled with the sign |
| Numbers.FilledWord | iv/parser.h:1460-1465 | so is the right shift of an unsigned word filled with zeros |
| Numbers.CountIs | iv/parser.h:1453-1472 | masking the converted count is the count modulo 32 of the unsigned conversion |
| Numbers.CarriedIsStandard | iv/parser.h:1434-1541 | for all number values what the parser folds is the standard's operator on the converted operands |
| Characters.HexValue | iv/conversions_digit.h:20-31 | -1 exactly for what is not a hexadecimal digit |
| Characters.HexDigit | iv/conversions.h:670-681 | the digit written is read back |
| Escapes.UnicodeSequenceEscape | iv/conversions.h:670-681 | the buffer filled from its end is the prefix and the four digits of the unit |
| Escapes.FourDigitsValue | iv/lexer.h:964-979 | the four digits are read back as the unit |
| Escapes.ScansUnit | iv/conversions.h:684-730 | scanning the quoted form of a unit records just that unit |
| Escapes.ScansQuoted | iv/conversions.h:684-734 | scanning the quoted form of a text records that text, or fails if it has a separator |
| Escapes.StopsAtSeparator | iv/conversions.h:718-727 | U+2028 and U+2029 are not quoted, and end the literal badly |
| Escapes.QuoteRoundTrip | iv/conversions.h:684-734 | `"` + JSONQuote(s) + `"` is scanned as s, stopping right behind it and never as octal, if and only if s has no U+2028 or U+2029 |
| Escapes.EscapePattern | iv/conversions.h:737-795 | the loop with its two flags computes the pattern escaping |
| Escapes.EscapeNext | iv/conversions.h:748-792 | one unit, with the flags going on as the state does |
| Escapes.EscapePatternUnit | iv/conversions.h:737-746 | a line terminator becomes an escape, with a backslash only if none precedes |
| Escapes.EscapeConcat | iv/conversions.h:748-792 | escaping is compositional in the text, given the state in between |
| Escapes.UnitStable | iv/conversions.h:748-792 | what is written for a unit is left alone by a second escaping |
| Escapes.EscapeIdempotent | iv/conversions.h:737-795 | escaping twice is escaping once, for every text |
| Escapes.EscapeHasNoLineTerminator | iv/conversions.h:737-795 | an escaped pattern has no line terminator, for every text |
| Escapes.ScansEscaped | iv/lexer.h:461-495 | the pattern scanner passes over an escaped text, ending in the class state of that text |
| Escapes.PatternRoundTrip | iv/lexer.h:461-495 | `/` + RegExpEscape(s) + `/` is closed by that slash if and only if s ends outside a class and not on a dangling backslash |
| Escapes.DanglingNotClosed | iv/lexer.h:470-486 | after a dangling backslash the slash belongs to the pattern |
| Codes.HexValueIs | iv/conversions_digit.h:20-31 | the value of a digit is its place in 0123456789abcdef, in either case, and it is written in lower case |
| Codes.HexAtIs | iv/lexer.h:964-979 | so many hexadecimal digits are read as the sum of the digits, each times its power of 16 |
| Codes.OctalEscapeIs | iv/lexer.h:792-858 | an octal escape is the sum of one to three digits, each times its power of 8, a third only after 0 to 3 |
| Codes.OctalEscapeSpoiled | iv/lexer.h:792-858 | it fails exactly where an 8 or a 9 follows |
| Codes.EscapeCodes | iv/lexer.h:728-858 | every escape sequence and what it denotes, in code units |
| Codes.HexEscapeCodes | iv/lexer.h:765-790 | after u four, after x two hexadecimal digits, or nothing |
| Codes.StringCodes | iv/lexer.h:667-700 | how a string literal goes on at every unit |
| Codes.FourDigitsAre | iv/conversions.h:670-681 | the four digits of a unit, by place, in lower case |
| Codes.QuoteCodes | iv/conversions.h:684-720 | the quoted form of every unit |
| Codes.EscapeUnitCodes | iv/conversions.h:737-795 | the escaped form of every unit of a pattern, by the state it is in |
| Codes.PatternCodes | iv/lexer.h:461-495 | how a pattern goes on at every unit |
| Codes.ValueIs | iv/conversions.h:259-290 | a string of decimal digits is the sum of its digits, each times its power of 10 |
| Tokens.SingleOf | iv/lexer.h:312-365 | the punctuators of one character that none continues |
| Tokens.ExtensionContinues | iv/lexer.h:108-299 | a longer punctuator goes on with one of the characters the scanner looks for |
| Tokens.LongestWhen | iv/lexer.h:108-365 | reading on while a punctuator can continue takes the longest punctuator |
| Tokens.LineEnd | iv/lexer.h:578-586 | the first line terminator, or the end |
| Tokens.TriviaThen | iv/lexer.h:91-101 | trivia can be extended by one more, with the line terminators noted |
| Tokens.PlainName | iv/lexer.h:627-665 | a name without escapes denotes its own spelling |
| Tokens.LongestDecimal | iv/lexer.h:861-917 | a decimal whose parts have each been exhausted is the longest numeric literal there |
| Tokens.LongestHex | iv/lexer.h:870-880 | digits up to a character that is none make the longest literal after 0x |
| Tokens.LongestOctal | iv/lexer.h:881-891 | the same after a leading zero |
| Tokens.TokenStart | iv/lexer.h:101-380 | by its first character a token is a string, a name, a number or something else, and never trivia |
| Tokens.LegalOrNot | iv/lexer.h:101-380 | where a legal token can be read, nothing illegal is |
| Tokens.TokenUnique | iv/lexer.h:91-391 | at one place there is at most one token, with one end |
| Tokens.TriviumIsNoToken | iv/lexer.h:96-100 | white space, a line terminator or a comment is never the beginning of a token |
| Tokens.TriviaUnique | iv/lexer.h:91-101 | trivia can be skipped in one way only |
| Tokens.TokensUnique | iv/lexer.h:91-391 | a source has one sequence of tokens (up to a first illegal one, whose end is open): the contract of `Next` leaves no choice |
| Tokens.UnnotedTerminator | iv/lexer.h:588-608 | a closed comment has a line terminator that is not noted if and only if its only one is right behind the opening |
| Tokens.UnnotedRun | iv/lexer.h:588-608 | behind a comment with only that one, `-->` is the operators `--` and `>` |
| Tokens.NotedRun | iv/lexer.h:588-608 | behind a comment with a second one it is a comment, and no token is left |
| Tokens.SpellingTells | iv/lexer.h:108-365 | different punctuators are spelled differently |
| Tokens.SingleTells | iv/lexer.h:312-365 | a punctuator of one character stands by itself |
| Codes.CharacterClasses | iv/character.h:1250-1277 | line terminators, white space, quotation marks and name characters in code units |
| Codes.PunctuatorCodes | iv/lexer.h:108-365 | every punctuator in code units |
| Codes.LiteralCodes | iv/lexer.h:861-917 | exponents, hexadecimal and octal literals in code units |
| Codes.DecimalCodes | iv/lexer.h:861-917 | decimal literals in code units |
| Lexing.Lexer.constructor | iv/lexer.h:71-75 | the cursor on the first character |
| Lexing.Lexer.Advance | iv/lexer.h:532-541 | one character on, and one past the end at most |
| Lexing.Lexer.PushBack | iv/lexer.h:569-576 | exactly undoes an Advance |
| Lexing.Lexer.Record16Advance | iv/lexer.h:551-567 | the character is recorded and passed |
| Lexing.Lexer.SkipLineTerminator | iv/lexer.h:987-994 | CR LF counts as one |
| Lexing.Lexer.ScanHexEscape | iv/lexer.h:964-979 | reads exactly the digits asked for, or pushes all of them back |
| Lexing.Lexer.ScanEscape | iv/lexer.h:728-858 | succeeds exactly on well-formed escapes, with their text, end and octal mark |
| Lexing.Lexer.ScanOctal | iv/lexer.h:792-846 | the same for octal sequences, three digits only after 0 to 3 |
| Lexing.Lexer.ScanString | iv/lexer.h:667-700 | STRING exactly when the literal is closed and well formed, with its text, kind of escapes and end |
| Lexing.Lexer.ScanRegExpLiteral | iv/lexer.h:461-495 | succeeds exactly when the pattern is closed, with its text unchanged in the buffer |
| Lexing.Lexer.ScanPatternUnit | iv/lexer.h:464-490 | one unit, or a backslash and a unit, and whether a class is open then |
| Lexing.Lexer.SkipSingleLineComment | iv/lexer.h:578-586 | stops at the line terminator |
| Lexing.Lexer.SkipMultiLineComment | iv/lexer.h:588-608 | stops behind the first end of comment, illegal exactly when there is none; notes line terminators, but not one right behind the opening |
| Lexing.Lexer.SkipHtmlComment | iv/lexer.h:610-624 | `<!--` starts a comment; anything less is pushed back, so only `<` has been read |
| Lexing.Lexer.ScanIdentifier | iv/lexer.h:627-665 | a name exactly when all its escapes are well formed and denote name characters |
| Lexing.Lexer.ScanNameUnit | iv/lexer.h:630-661 | one unit of a name, plain or escaped |
| Lexing.Lexer.ScanDecimalDigits | iv/lexer.h:981-985 | takes all digits there are |
| Lexing.Lexer.ScanExponent | iv/lexer.h:900-917 | succeeds exactly when a digit follows the letter and its sign |
| Lexing.Lexer.ScanAfterZero | iv/lexer.h:873-896 | hexadecimal, octal or a lone zero, each taken as far as it goes |
| Lexing.Lexer.ScanNumber | iv/lexer.h:861-945 | the longest literal, illegal exactly when a digit or the start of a name follows it |
| Lexing.Lexer.ScanLess | iv/lexer.h:108-127 | the longest operator, or a comment at `<!--` |
| Lexing.Lexer.ScanGreater | iv/lexer.h:129-154 | the longest operator |
| Lexing.Lexer.ScanEquals | iv/lexer.h:156-186 | the longest operator |
| Lexing.Lexer.ScanMinus | iv/lexer.h:202-218 | the longest operator, or a comment at `-->` exactly after a line terminator |
| Lexing.Lexer.ScanSlash | iv/lexer.h:242-260 | a comment or the longest operator |
| Lexing.Lexer.ScanDoubled | iv/lexer.h:188-200 | the longest operator |
| Lexing.Lexer.ScanAssignable | iv/lexer.h:220-229 | the longest operator |
| Lexing.Lexer.ScanPeriod | iv/lexer.h:301-310 | a number exactly when a digit follows |
| Lexing.Lexer.ScanToken | iv/lexer.h:101-380 | one token, or trivia, from a character that is not white space; the end exactly at the end |
| Lexing.Lexer.Next | iv/lexer.h:91-391 | only trivia is skipped, and the token found is the one at that place; every token but the end takes a character |
| Lexing.Lexer.Tokenize | iv/lexer.h:91-391 | any source reaches its end: the tokens and the trivia between them make up the whole of it |
| Lexing.HexStops | iv/lexer.h:967-974 | a bad digit on the way means that there is no escape of the full length |
| Lexing.Lexer.Record | iv/lexer.h:555-557 | a given unit is recorded and the character passed |
| Lexing.Lexer.ScanHexUnit | iv/lexer.h:765-790 | an escape of so many hexadecimal digits records its value, or fails |
| Lexing.Lexer.ScanStringToken | iv/lexer.h:102-106 | the string token at that place |
| Lexing.Lexer.ScanSingle | iv/lexer.h:312-365 | a punctuator that nothing continues |
| Lexing.Lexer.ScanOther | iv/lexer.h:301-380 | a period, a single punctuator, a name, a number, a line terminator, or a stray character that no token begins with |
| Lexing.Lexer.ReadLineTerminator | iv/lexer.h:374-377 | a line terminator is noted |
| Lexing.Lexer.SkipWhiteSpace | iv/lexer.h:96-99 | takes all white space there is, and nothing else |
| Lexing.Lexer.ScanNext | iv/lexer.h:95-383 | one turn of the loop: a token, or more trivia |
| Lexing.Lexer.ScanMantissa | iv/lexer.h:861-901 | digits and fraction as far as they go, or a whole hexadecimal or octal literal |
| Lexing.Lexer.ScanStringUnit | iv/lexer.h:675-693 | one unit of a string or one escape sequence, failing exactly when the string does |
| Lexing.Lexer.ScanNameRest | iv/lexer.h:647-662 | all further units of a name, failing exactly on a bad escape |
| Lexing.Lexer.ScanNameToken | iv/lexer.h:371-372 | the name token at that place |
| Lexing.Lexer.ScanNumberToken | iv/lexer.h:373-374 | the number token at that place |
| Lexing.Lexer.ScanStray | iv/lexer.h:376-380 | an illegal character is a token by itself |
| Lexing.Lexer.TakeNext | iv/lexer.h:91-391 | one more token in place behind those read so far |
| Transcoding.SurrogateRanges | iv/unicode.h:75-98 | the mask tests are the surrogate ranges of RFC 2781, section 2.1 |
| Transcoding.SplitPair | iv/unicode.h:75-98 | a code point above FFFF is split into a high and a low surrogate, which denote it, and joined back |
| Transcoding.JoinPair | iv/unicode.h:75-98 | every pair of surrogates is joined to the code point it denotes and split back |
| Transcoding.Unpack2 | iv/unicode.h:328-350 | two octets give the code point back |
| Transcoding.Unpack3 | iv/unicode.h:328-350 | three octets give the code point back |
| Transcoding.Unpack4 | iv/unicode.h:328-350 | four octets give the code point back |
| Transcoding.Repack2 | iv/unicode.h:196-225 | and two-octet forms are rebuilt from what they denote |
| Transcoding.Repack3 | iv/unicode.h:228-271 | the same for three octets |
| Transcoding.Repack4 | iv/unicode.h:274-325 | the same for four octets |
| Transcoding.Pack3Range | iv/unicode.h:228-271 | the range tests on three octets mean: no overlong form, no surrogate |
| Transcoding.Pack4Range | iv/unicode.h:274-325 | on four octets: no overlong form, nothing above 10FFFF |
| Transcoding.Sum4 | iv/unicode.h:274-325 | four octets are packed to the sum of their parts, each by its place |
| Transcoding.AppendDenotes | iv/unicode.h:328-350 | the octets written for a number denote it by the table of section 3 of RFC 3629 |
| Transcoding.PairSum | iv/unicode.h:95-98 | two surrogates are joined to the sum of their parts and 0x10000 |
| Transcoding.AppendThenNext | iv/unicode.h:328-384 | every scalar value is written as a character of the grammar of RFC 3629, section 4, which denotes it octet by octet, and read back whatever follows |
| Transcoding.NextThenAppend | iv/unicode.h:353-384 | whatever is accepted is a character of that grammar, the encoding of its scalar value, and denotes it octet by octet |
| Transcoding.GrammarAccepted | iv/unicode.h:353-384 | every character of the grammar is accepted |
| Transcoding.OutOfSpace | iv/unicode.h:183-325 | octets are reported missing exactly when the announced length is not there and what is there are tails |
| Transcoding.DecodesEncoded | iv/unicode.h:387-400 | any scalar values are read back from their octets |
| Transcoding.EncodesDecoded | iv/unicode.h:387-400 | what was decoded is exactly the part read; at an error no character of the grammar follows |
| Transcoding.AcceptsGrammar | iv/unicode.h:387-400 | accepted are exactly the strings of the grammar |
| Transcoding.DecodesUnits | iv/unicode.h:403-416 | any scalar values are read back from their UTF-16 units |
| Transcoding.UnitsOfDecoded | iv/unicode.h:459-482 | accepted UTF-16 is rebuilt from what was decoded |
| Transcoding.AcceptsPaired | iv/unicode.h:459-482 | accepted are exactly the strings whose surrogates are paired |
| Transcoding.UTF8ToUCS4 | iv/unicode.h:387-400 | the loop decodes everything in front of the first error and reports that error |
| Transcoding.UTF8ToUTF16 | iv/unicode.h:419-431 | the same into UTF-16 |
| Transcoding.UTF16ToUTF8 | iv/unicode.h:459-482 | the loop encodes everything in front of the first unpaired surrogate |
| Transcoding.UTF16RoundTrip | iv/unicode.h:459-482 | UTF-16 to UTF-8 and back is the identity exactly on well-formed strings |
| Transcoding.UTF8RoundTrip | iv/unicode.h:419-431 | UTF-8 to UTF-16 and back gives the same octets exactly on the strings of the grammar |
| Naturals.AdjustedIs | iv/date_utils.h:42-48 | a truncated remainder made non-negative is the mathematical modulo, and the quotient is then one lower |
| Calendar.DaysInYearIs | iv/date_utils.h:50-52 | 366 days exactly in the leap years of section 15.9.1.3 of ECMA-262, negative years included |
| Calendar.DaysFromYearIs | iv/date_utils.h:54-70 | the day number of that section, with its own constants |
| Calendar.NextYear | iv/date_utils.h:50-70 | a year begins as many days after the one before as that one has |
| Calendar.YearsInOrder | iv/date_utils.h:54-70 | later years begin at least 365 days later each |
| Calendar.NearAverage | iv/date_utils.h:54-70 | the day number of a year differs from the average by less than four days |
| Calendar.YearContains | iv/date_utils.h:78-89 | one correction of the estimate suffices: the year found contains the time, for every integer time |
| Calendar.YearUnique | iv/date_utils.h:78-89 | and no other year does |
| Calendar.Int64DayIsDay | iv/date_utils.h:35-40 | the truncating day number with its adjustment is the floor |
| Calendar.MonthTables | iv/date_utils.h:99-107 | the table of month starts is the running sum of the table of lengths, and they make a year |
| Calendar.MonthStarts | iv/date_utils.h:99-107 | the months begin on the days that section 15.9.1.4 lists, and are as long as the days between |
| Calendar.DayWithinYearInRange | iv/date_utils.h:95-97 | the day within the year is below the length of the year |
| Calendar.FindMonth | iv/date_utils.h:114-125 | the month loop always finds the month that contains the day |
| Calendar.MonthFromTime | iv/date_utils.h:114-125 | the month of a time, never falling through the loop |
| Calendar.DateFromTime | iv/date_utils.h:133-144 | the date within that month |
| Calendar.YMDFromTime | iv/date_utils.h:340-363 | year, month and date at once, the same three |
| Calendar.YearDaySign | iv/date_utils.h:295-305 | a day number lies before 1970 exactly when its year does |
| Calendar.MakeDayIs | iv/date_utils.h:295-320 | truncating division with its adjustment carries every month number, negative ones included, by floor(m / 12) years |
| Calendar.MakeDay | iv/date_utils.h:307-320 | NaN exactly for arguments that are not finite; otherwise the day number of the arguments cast to 32 bits, months of any sign carried into years |
| Calendar.MakeDayCarries | iv/date_utils.h:307-320 | twelve months are a year and dates count on and on |
| Calendar.MakeDateIs | iv/date_utils.h:322-328 | day and time together, or NaN beyond the limit |
| Calendar.TimeFields | iv/date_utils.h:245-278 | hour, minute, second and millisecond are in range and with the day make up the time, in numbers |
| Calendar.SplitAndMake | iv/date_utils.h:307-363 | making a time through the three functions from the fields it was split into gives it back, up to the limit of `MakeDate` |
| Calendar.MakeAndSplit | iv/date_utils.h:307-363 | splitting a made time gives the fields back |
| Calendar.YearFits | iv/date_utils.h:322-328 | the years up to the limit of `MakeDate` fit an integer of 32 bits |
| Calendar.WeekDays | iv/date_utils.h:154-160 | days of the week follow each other, and the epoch is a Thursday |
| Calendar.WeekDayIs | iv/date_utils.h:154-168 | both ways to the day of the week agree |
| Calendar.CachedFields | iv/date_utils.h:441-460 | the fields taken from the time within the day are those taken from the time |
| Calendar.DateInstance.constructor | iv/date_utils.h:373-384 | no valid cache yet |
| Calendar.DateInstance.SetValue | iv/date_utils.h:381-384 | a new value invalidates the cache |
| Calendar.DateInstance.CalculateCache | iv/date_utils.h:441-460 | after it a cache of a finite value holds its fields; a valid cache is left alone |
| Calendar.DateInstance.CalculateTime | iv/date_utils.h:445-457 | the four fields of the time within the day |
| Calendar.DateInstance.Year | iv/date_utils.h:386-440 | the year of the value, through the cache; for an invalid date the year left over, with nothing changed |
| Calendar.DateInstance.MonthAndDate | iv/date_utils.h:386-440 | month and date of the value, through the cache; for an invalid date what was left over, with nothing changed |
| Regions.RoundUp | iv/alloc.h:59-62 | the next multiple of 8, which keeps small requests small |
| Regions.LiesInLive | iv/alloc.h:120-145 | a block given out lies inside one live block of the underlying heap |
| Regions.SoundIsPlaced | iv/alloc.h:120-145 | in a sound layout every block is aligned to eight octets, lies in live memory, and shares no address with another |
| Regions.CutKeeps | iv/alloc.h:59-70 | cutting a block off the current arena keeps the layout sound: aligned, in bounds, pairwise disjoint |
| Regions.CutIsApart | iv/alloc.h:59-70 | it overlaps no block given out before, and moves none |
| Regions.AdvancedKeeps | iv/alloc.h:128-137 | going on to the next arena and emptying it keeps the layout sound, and then every small request fits |
| Regions.ExtendedKeeps | iv/alloc.h:150-159 | a new arena at the end keeps it sound |
| Regions.FirstKeeps | iv/alloc.h:97-101 | one arena is a sound layout |
| Regions.LargeKeeps | iv/alloc.h:139-144 | a large block of its own keeps it sound |
| Regions.ClearedKeeps | iv/alloc.h:103-108 | back to the first arena with the large blocks freed is sound |
| Regions.EmptyFits | iv/alloc.h:133-137 | every small request fits into an empty arena, so the retry succeeds |
| Regions.Arena.constructor | iv/alloc.h:47-57 | an empty arena, linked behind the one before |
| Regions.Arena.Allocate | iv/alloc.h:59-70 | the next block, or nothing and no change when it does not fit |
| Regions.Arena.ToStart | iv/alloc.h:84-88 | the arena is empty again |
| Regions.Heap.Malloc | iv/alloc.h:139-144 | what is assumed of malloc: aligned, apart from everything live |
| Regions.Heap.Free | iv/alloc.h:110-118 | only what is live may be freed |
| Regions.Space.constructor | iv/alloc.h:97-101 | a space with one arena |
| Regions.Space.New | iv/alloc.h:120-145 | a small request is cut from the current, the next or a new arena, a large one gets a block of its own; earlier blocks keep their places |
| Regions.Space.NewLarge | iv/alloc.h:139-144 | a block straight from malloc, remembered for freeing |
| Regions.Space.CutHere | iv/alloc.h:122-127 | a block from the current arena, or nothing when it is full |
| Regions.Space.MoveOn | iv/alloc.h:128-137 | the next arena, or a new one; then every small request fits |
| Regions.Space.GoOn | iv/alloc.h:128-137 | an arena that is already there is emptied before use |
| Regions.Space.AddArena | iv/alloc.h:150-159 | a new arena is linked behind the last |
| Regions.Space.LinkArena | iv/alloc.h:150-159 | it becomes the last of the chain and the others keep their positions |
| Regions.Space.Clear | iv/alloc.h:103-108 | all blocks are given up: large ones freed, arenas kept |
| Regions.Space.FreeMalloced | iv/alloc.h:103-118 | each large block is freed once |
| Regions.Space.FreeArenas | iv/alloc.h:110-118 | each arena is freed once |
| Regions.Space.Destroy | iv/alloc.h:110-118 | exactly the arenas and the large blocks still held are freed, each once |
| Regions.Run | iv/alloc.h:95-164 | over every run of requests and clearings the blocks since the last clearing are those asked for, pairwise disjoint, aligned and in bounds |
| Regions.Space.FirstBlock | iv/alloc.h:97-101 | the memory of the first arena |
| Regions.Space.NextBlock | iv/alloc.h:150-159 | the memory of one more arena, apart from everything live |
| Interning.DecimalIs | iv/conversions.h:348-362 | the decimal form has no leading zero and its value is the number |
| Interning.CanonicalIsDecimal | iv/conversions.h:259-290 | digits without a leading zero are the decimal form of their value |
| Interning.ValueBounds | iv/conversions.h:259-290 | n digits without a leading zero have a value between 10^(n-1) and 10^n |
| Interning.UIntToString | iv/conversions.h:348-362 | the buffer filled from its end is the decimal form |
| Interning.TenDigits | iv/conversions.h:348-362 | a 32-bit number has at most ten digits |
| Interning.IntToString | iv/conversions.h:318-345 | the same with a sign, the smallest integer included |
| Interning.ConvertToUInt32 | iv/conversions.h:259-290 | what is accepted, and the number it gives modulo 2^32 |
| Interning.ShortIndices | iv/conversions.h:259-290 | up to ten characters, accepted are exactly the decimal forms of 32-bit numbers |
| Interning.LongIndices | iv/conversions.h:279-289 | a longer canonical string is never a 32-bit number |
| Interning.WrappedIndex | iv/conversions.h:279-289 | yet "42949672960" is accepted, as 0 |
| Interning.IndexRoundTrip | iv/conversions.h:259-362 | every 32-bit number is read back from its decimal form |
| Interning.SymbolKinds | iv/symbol_fwd.h:85-174 | the kinds of symbols are told apart, and give back the address or index they were made of |
| Interning.TagUndone | iv/symbol_fwd.h:85-89 | an address comes back from its symbol exactly when it is even |
| Interning.IndexOf | iv/symbol_fwd.h:176-182 | an accepted string is the text of its index exactly unless it is longer than ten characters |
| Interning.Memory.New | iv/symbol_table.h:135-150 | a new string at an aligned address of its own |
| Interning.SymbolTable.constructor | iv/symbol_table.h:108-117 | an empty table over an empty memory; the default symbols are left out |
| Interning.SymbolTable.Lookup | iv/symbol_table.h:135-150 | an index symbol for an index; otherwise the string is interned once, and all earlier ones keep their places |
| Interning.SymbolTable.GetSymbolString | iv/symbol_fwd.h:184-192 | the text of a symbol that has been given out |
| Interning.SymbolTable.SymbolText | iv/symbol_table.h:135-150 | the symbol of s is given out with the text s, or with the decimal form of the wrapped index exactly when s is overlong |
| Interning.SymbolTable.SymbolsDistinguish | iv/symbol_table.h:135-150 | for all strings: equal symbols if and only if the strings are equal or both are accepted with values congruent modulo 2^32 |
| Interning.SymbolTable.Intern | iv/symbol_table.h:135-150 | over every run of lookups: the text of each symbol is its string and stays so, also of symbols given out before, and symbols are equal exactly when the strings are not told apart |
| RingList.Node.Unlink | iv/intrusive_list.h:38-43 | the neighbours are joined and the node is let go |
| RingList.InsertBefore | iv/intrusive_list.h:239-245 | the node is put into the ring in front of the given one, touching only neighbours |
| RingList.Remove | iv/intrusive_list.h:38-43 | the node is taken out of the ring, touching only neighbours |
| RingList.RingEnds | iv/intrusive_list.h:157-160 | every node is joined to the next and the one before, the ends to each other |
| RingList.List.constructor | iv/intrusive_list.h:155-155 | an empty ring |
| RingList.List.Begin | iv/intrusive_list.h:157-157 | the first node, or the end |
| RingList.List.Back | iv/intrusive_list.h:227-227 | the last node |
| RingList.List.Insert | iv/intrusive_list.h:196-200 | the sequence with the node at that place |
| RingList.List.PushBack | iv/intrusive_list.h:182-182 | the node at the end |
| RingList.List.PushFront | iv/intrusive_list.h:184-184 | the node at the front |
| RingList.List.InsertRange | iv/intrusive_list.h:202-207 | the nodes arrive in reverse order, because each becomes the place for the next |
| RingList.List.Erase | iv/intrusive_list.h:209-215 | the sequence without that node, and the place behind it |
| RingList.List.EraseNext | iv/intrusive_list.h:217-222 | one more node of the range is taken out |
| RingList.List.EraseRange | iv/intrusive_list.h:217-222 | the sequence without the range, whose nodes are let go |
| RingList.List.PopBack | iv/intrusive_list.h:186-189 | without the last node |
| RingList.List.PopFront | iv/intrusive_list.h:191-194 | without the first node |
| RingList.List.Clear | iv/intrusive_list.h:230-232 | nothing left, and every node let go |

## Left out

- Quotient.Quorem: an exact zero remainder of a one-word divisor is the empty vector, as in the code; the digit
  loops then read its first word, which is modelled as zero.
- Doubles.ShortestOfWords: takes the estimate of the decimal logarithm as a parameter that is right or one too large;
  the floating-point estimate itself and the floating-point fast paths (`iv/dtoa_bigint.h:680-747`, `793-938`) need
  IEEE rounding.
- Doubles.FixedOfWords: the same holds here; a fixed conversion that also looks for the shortest digits is
  never asked for and is not modelled, nor is the layout of the digits in a buffer with its exponent and sign.
- BigNum.BigInt.Pow5Multi: the mutex around the shared table and its sharing between threads.
- BigNum: sizes never overflow and allocation never fails; `Ratio`, `ToDouble` and the constructor from a double.
- HashMap.QHashMap.Lookup: the value of a new entry is whatever its slot held, as in the code; a null key is modelled
  by the option type, and copying a table is left out.
- Environments.Scope.RollUp: parameter positions and the immutable marks of names; bindings are values, not shared
  objects, so a name occurs in one scope only.
- Environments.Environment.Propagate: the in-place removal of a catch name from the caller's map, which the caller
  drops afterwards; maps are values and have no order.
- Environments.Parser.ParseProgram: statements and expressions are reduced to the nodes that matter for scopes; the
  opening and closing of environments follows the nesting of calls, as the destructors do.
- Precedence.Parser.TakeLevel: the ten written-out loops are one loop with the level as a parameter.
- Precedence.Parser.ParseUnaryExpression: operands are names, number and string literals and parenthesised binary
  expressions; `++`, `--`, calls, assignment, the comma and the conditional operator, and strict-mode errors are out.
- Precedence.FoldKeepsMeaning: the sum, difference, product and quotient of doubles round and are a parameter, which
  the machine shares; number values are exact reals otherwise.
- Numbers.CarriedIsStandard: that a left shift of a negative integer wraps and a right shift keeps the sign is left to
  the implementation by C++ and taken for granted here.
- Lexing.Lexer.ScanIdentifier: keywords are names here; telling them apart is a table lookup.
- Lexing.Lexer.ScanNumber: which literal it is and where it ends, not its numeric value.
- Lexing.Lexer.ScanRegExpLiteral: the flags behind a pattern.
- Lexing.Lexer.Next: line numbers, the reported begin of the end token, and the modes that report comments as tokens
  or recover from illegal text. Where an illegal token ends is not said.
- Tokens.Categories: the Unicode tables are parameters, of which only is used that no character is two of a space,
  a separator and the start of a name.
- Transcoding.UTF8ToUTF16: works on whole strings; iterators over single octets, byte order marks and the length
  functions are left out.
- Calendar.MakeDay: a cast out of range gives an arbitrary integer; the 32-bit sum of year and carried months is taken
  not to overflow. Doubles are exact reals and times are exact integers, so rounding far from the epoch is not
  modelled; local time, daylight saving and clipping are left out.
- Regions.Heap.Malloc: what malloc does is assumed by its contract; running out of memory and the end of the address
  space are left out.
- Interning.SymbolTable.Lookup: strings of 16-bit units only; hash functions and the destructor are left out.
- Interning.SymbolTable.constructor: the default symbols are not interned at the start.
- RingList.List.constructor: the sentinel is a node of its own and not a base of the list; reverse and const iterators
  only repeat the others.
- Label sets, bit vectors, internationalisation data, the AST serializer and visitors, and everything that talks to
  the operating system.
