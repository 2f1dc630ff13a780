# Conditions and loops, verified

A Dafny model of `src/conditions-n-loops-tasks.js`, a collection of small exercises written with
conditionals and loops only. The collection includes:

- sign and maximum tests;
- a queen's reach on a chessboard;
- the isosceles test;
- Roman numerals up to 39;
- spelling a number string out in words;
- palindrome, first-index, digit-membership and balance-index scans;
- the clockwise spiral matrix;
- in-place rotation of a square matrix;
- in-place quicksort;
- a repeated character shuffle;
- the nearest larger number made of the same digits.

Each operation takes the same form as its source. Functions that only compute are Dafny
functions. Loops are Dafny methods with loop invariants. The matrices of rotateMatrix and
getSpiralMatrix and the array of sortByAsc are updated in place on a Dafny `array2` or
`array`. The local digit array of getNearestBigger is a `seq<int>` value that its methods
take and return. Each operation is proved against a specification
function. Properties of that function are then proved as lemmas: the round trip of the Roman
numerals, the round trip of the spelled-out number, four quarter turns giving the matrix back,
the spiral being a bijection onto 1..n², a sorted permutation being unique, and the nearest
larger number having no rearrangement of its digits in between.

Modules, one per file:

- `Math` (math.dfy): Math.abs, and JavaScript's `%`, which truncates toward zero.
- `DecimalDigits` (decimal_digits.dfy): digit sequences, least significant first, and their values.
- `Conditions` (conditions.dfy): isPositive, getMaxNumber, canQueenCaptureKing, isIsoscelesTriangle.
- `RomanNumerals` (roman_numerals.dfy): convertToRomanNumerals.
- `NumberWords` (number_words.dfy): convertNumberToString.
- `Scans` (scans.dfy): isPalindrome, getIndexOf, isContainNumber, getBalanceIndex.
- `MatrixLayers` (matrix_layers.dfy): the ring (layer) of a cell in a square matrix.
- `SpiralMatrix` (spiral_matrix.dfy): getSpiralMatrix.
- `MatrixRotation` (matrix_rotation.dfy): rotateMatrix.
- `QuickSort` (quick_sort.dfy): partition, quickSort, sortByAsc, and the descending sort used by getNearestBigger.
- `CharShuffle` (char_shuffle.dfy): shuffleOne, shuffleOneBack, shuffleChar.
- `NearestBigger` (nearest_bigger.dfy): getNearestBigger.

JavaScript numbers are modelled as unbounded integers. Matrices are `array2<int>`. The array
given to sortByAsc is an `array<int>`. Strings are `seq<char>`.

## Model

| member | source | states |
|---|---|---|
| Conditions.IsPositive | src/conditions-n-loops-tasks.js:24-26 | the result is true exactly when the number is at least 0, so zero counts as positive |
| Conditions.IsPositiveExamples | src/conditions-n-loops-tasks.js:20-22 | 10 and 0 are positive; -5 is not |
| Conditions.GetMaxNumber | src/conditions-n-loops-tasks.js:41-44 | the result is at least each of the three arguments and equals one of them |
| Conditions.MaxOrderFree | src/conditions-n-loops-tasks.js:41-44 | permuting the arguments does not change the maximum |
| Conditions.GetMaxNumberExamples | src/conditions-n-loops-tasks.js:37-38 | (1, 2, 3) gives 3; (-5, 0, 5) gives 5 |
| Conditions.CanQueenCaptureKing | src/conditions-n-loops-tasks.js:64-72 | the result is true exactly when the king stands on one of the eight rays from the queen, some number of steps along it |
| Conditions.QueenLineTests | src/conditions-n-loops-tasks.js:68-70 | the three tests (same column, same row, equal distances on both axes) hold exactly when the king stands on one of the queen's eight rays |
| Conditions.QueenExamples | src/conditions-n-loops-tasks.js:59-61 | the queen at (1,1) reaches (5,5); at (2,1) it reaches (2,8); at (1,1) it does not reach (2,8) |
| Conditions.IsIsoscelesTriangle | src/conditions-n-loops-tasks.js:92-96 | a true answer means all sides are positive and two are equal |
| Conditions.IsoscelesByLegs | src/conditions-n-loops-tasks.js:92-96 | the answer is true exactly when two arguments are equal legs s and the third is a base strictly between 0 and 2s |
| Conditions.IsoscelesOrderFree | src/conditions-n-loops-tasks.js:92-96 | the answer does not depend on the order of the sides |
| Conditions.IsoscelesExamples | src/conditions-n-loops-tasks.js:84-90 | the seven listed cases, including the degenerate (1,2,3), (2,2,5) and the zero side (3,0,3) |
| RomanNumerals.ConvertToRomanNumerals | src/conditions-n-loops-tasks.js:112-135 | the nested loops produce the greedy numeral: the largest table entry that fits, then the numeral of the rest |
| RomanNumerals.GreedyStep | src/conditions-n-loops-tasks.js:122-129 | the entry the downward search stops at is the one the greedy numeral takes next |
| RomanNumerals.RomanSymbols | src/conditions-n-loops-tasks.js:113-119 | every numeral is written with I, V and X only |
| RomanNumerals.RomanRoundTrip | src/conditions-n-loops-tasks.js:112-135 | reading the numeral back with the subtractive rule gives the number, for every n >= 0 |
| RomanNumerals.RomanInjective | src/conditions-n-loops-tasks.js:112-135 | different numbers get different numerals |
| RomanNumerals.RomanExamples | src/conditions-n-loops-tasks.js:106-110 | 1, 2, 5, 10 and 26 give I, II, V, X and XXVI |
| NumberWords.ConvertNumberToString | src/conditions-n-loops-tasks.js:152-195 | the result is the words of the characters in order, separated by single spaces, with no trailing space |
| NumberWords.JoinSnoc | src/conditions-n-loops-tasks.js:190-192 | appending a word after a non-empty text adds exactly one space before it |
| NumberWords.Word | src/conditions-n-loops-tasks.js:170-188 | every word is non-empty and holds no space, and the word of a digit, '.', ',' or '-' reads back to that character, with ',' read as '.' |
| NumberWords.SplitJoin | src/conditions-n-loops-tasks.js:190-192 | cutting the joined text at its spaces gives the words back |
| NumberWords.SpelledRoundTrip | src/conditions-n-loops-tasks.js:152-195 | for a string of digits, '.', ',' and '-', reading the spelled-out text back gives the string, with a decimal comma turned into a point |
| NumberWords.NumberWordsExamples | src/conditions-n-loops-tasks.js:145-147 | '1', '10' and '-10' give 'one', 'one zero' and 'minus one zero' |
| NumberWords.FractionExamples | src/conditions-n-loops-tasks.js:148-149 | '10.5' and '10,5' both give 'one zero point five' |
| NumberWords.LongFractionExample | src/conditions-n-loops-tasks.js:150 | '1950.2' gives 'one nine five zero point two' |
| Scans.IsPalindrome | src/conditions-n-loops-tasks.js:209-216 | the result is true exactly when the string equals its reverse |
| Scans.PalindromeExamples | src/conditions-n-loops-tasks.js:205-207 | 'abcba' and '0123210' are palindromes; 'qweqwe' is not |
| Scans.GetIndexOf | src/conditions-n-loops-tasks.js:232-239 | the result is -1 exactly when the letter is absent; otherwise it is an index holding the letter, with no earlier occurrence |
| Scans.IndexOfExamples | src/conditions-n-loops-tasks.js:227-230 | in 'qwerty', 'q' is at 0, while 'Q' and 'p' give -1 |
| Scans.IsContainNumber | src/conditions-n-loops-tasks.js:256-267 | the result is true exactly when the number is positive and the digit is one of its decimal digits |
| Scans.ContainExamples | src/conditions-n-loops-tasks.js:250-252 | 123450 contains 5, 1 and 0 |
| Scans.NotContainExamples | src/conditions-n-loops-tasks.js:253-254 | 12345 contains neither 0 nor 6 |
| Scans.SumAppend | src/conditions-n-loops-tasks.js:286-297 | the sum of a concatenation is the sum of its parts, which is how the running left and right sums stay correct |
| Scans.GetBalanceIndex | src/conditions-n-loops-tasks.js:282-301 | the result is the least index whose left and right parts have equal sums, or -1 when no index balances |
| Scans.BalanceExamples | src/conditions-n-loops-tasks.js:278-280 | [1, 2, 5, 3, 0] balances at 2; [1, 2, 3, 4, 5] balances nowhere |
| Scans.MoreBalanceExamples | src/conditions-n-loops-tasks.js:279 | [2, 3, 9, 5] balances at 2 |
| MatrixLayers.RingBounds | src/conditions-n-loops-tasks.js:334-362 | every cell lies on one side of a layer k with 2k < n, which the boundary counters walk |
| SpiralMatrix.GetSpiralMatrix | src/conditions-n-loops-tasks.js:324-364 | the fresh size-by-size matrix holds the spiral number of each cell |
| SpiralMatrix.FillLayer | src/conditions-n-loops-tasks.js:334-363 | one round of the outer loop fills layer k and moves the count past it |
| SpiralMatrix.FillTopRow | src/conditions-n-loops-tasks.js:335-339 | the top row of the layer is filled left to right |
| SpiralMatrix.FillRightColumn | src/conditions-n-loops-tasks.js:341-346 | the right column is filled downwards |
| SpiralMatrix.FillBottomRow | src/conditions-n-loops-tasks.js:348-353 | the bottom row is filled right to left |
| SpiralMatrix.FillLeftColumn | src/conditions-n-loops-tasks.js:355-360 | the left column is filled upwards |
| SpiralMatrix.Place | src/conditions-n-loops-tasks.js:336-337 | writing the next count into its cell keeps every earlier cell correct |
| SpiralMatrix.FilledClosedForm | src/conditions-n-loops-tasks.js:334 | the layers outside layer k hold n² - (n - 2k)² cells, so the loop ends after the last layer |
| SpiralMatrix.SpiralValueRange | src/conditions-n-loops-tasks.js:324-364 | every cell gets a number in 1..n², within the range of its own layer |
| SpiralMatrix.SpiralInjective | src/conditions-n-loops-tasks.js:324-364 | no two cells get the same number |
| SpiralMatrix.SpiralOnto | src/conditions-n-loops-tasks.js:324-364 | every number in 1..n² is in some cell |
| SpiralMatrix.SpiralFirstRow | src/conditions-n-loops-tasks.js:335-338 | the first row reads 1..n |
| SpiralMatrix.Rows | src/conditions-n-loops-tasks.js:325-327 | the matrix read as a list of rows |
| SpiralMatrix.SpiralExample3 | src/conditions-n-loops-tasks.js:311-315 | size 3 gives [[1,2,3],[8,9,4],[7,6,5]] |
| SpiralMatrix.SpiralExample4 | src/conditions-n-loops-tasks.js:316-321 | size 4 gives [[1,2,3,4],[12,13,14,5],[11,16,15,6],[10,9,8,7]] |
| SpiralMatrix.SpiralExample0 | src/conditions-n-loops-tasks.js:324-334 | size 0 gives an empty matrix |
| MatrixRotation.RotateMatrix | src/conditions-n-loops-tasks.js:382-397 | the same matrix is returned, and each cell (r, c) now holds the old value of cell (n-1-c, r): a quarter turn clockwise |
| MatrixRotation.RotateCycle | src/conditions-n-loops-tasks.js:387-393 | one four-way exchange rotates exactly the four cells of cycle j in layer i |
| MatrixRotation.CycleCells | src/conditions-n-loops-tasks.js:388-392 | cycle j of layer i is exactly the four cells the exchange touches |
| MatrixRotation.CycleIndexRange | src/conditions-n-loops-tasks.js:386-387 | every cell except the centre of an odd matrix has a cycle index within the bounds of the inner loop of its layer, so the two loops together reach every such cell |
| MatrixRotation.RotatedTwice | src/conditions-n-loops-tasks.js:382-397 | two quarter turns make a half turn |
| MatrixRotation.RotatedFourTimes | src/conditions-n-loops-tasks.js:382-397 | four quarter turns give the matrix back |
| MatrixRotation.RotatedExample | src/conditions-n-loops-tasks.js:375-379 | [[1,2,3],[4,5,6],[7,8,9]] turns into [[7,4,1],[8,5,2],[9,6,3]] |
| MatrixRotation.RotateExample | src/conditions-n-loops-tasks.js:375-379 | the same example, run through the in-place rotation |
| QuickSort.Swap | src/conditions-n-loops-tasks.js:420-425 | the destructuring swaps on lines 420 and 425: the two cells are exchanged and nothing else changes |
| QuickSort.Partition | src/conditions-n-loops-tasks.js:413-427 | the pivot ends at the returned index, with smaller-or-equal elements before it and larger ones after it in the range; the range is permuted and nothing outside it moves |
| QuickSort.QuickSortRange | src/conditions-n-loops-tasks.js:429-435 | the range [start, end] ends up sorted and permuted, and the rest of the array is unchanged |
| QuickSort.SortByAsc | src/conditions-n-loops-tasks.js:437-440 | the same array is returned, sorted, holding the same elements |
| QuickSort.SortedUnique | src/conditions-n-loops-tasks.js:437-440 | two sorted sequences with the same elements are equal, so the sort's result is determined by its input |
| QuickSort.SortTrivial | src/conditions-n-loops-tasks.js:437-440 | an empty or one-element array is left unchanged |
| QuickSort.SortedExample | src/conditions-n-loops-tasks.js:410 | the only sorted rearrangement of [2, 9, 5, 9] is [2, 5, 9, 9] |
| QuickSort.SortExample | src/conditions-n-loops-tasks.js:410 | sorting [2, 9, 5, 9] gives [2, 5, 9, 9] |
| QuickSort.SortByDesc | src/conditions-n-loops-tasks.js:598 | the array ends in non-increasing order, holding the same elements |
| CharShuffle.ShuffleOne | src/conditions-n-loops-tasks.js:476-485 | the result is the characters at even indices followed by those at odd indices, each group in order |
| CharShuffle.ShuffleOneBack | src/conditions-n-loops-tasks.js:460-474 | for even lengths, the result interleaves the first half with the second half |
| CharShuffle.UnshuffleShuffle | src/conditions-n-loops-tasks.js:460-485 | the backward step undoes the forward step on even lengths |
| CharShuffle.ShuffleUnshuffle | src/conditions-n-loops-tasks.js:460-485 | the forward step undoes the backward step on even lengths |
| CharShuffle.ShuffledPermutation | src/conditions-n-loops-tasks.js:476-485 | the forward step only rearranges the characters: the result has the same multiset of characters |
| CharShuffle.UnshuffledPermutation | src/conditions-n-loops-tasks.js:460-474 | on even lengths, the backward step only rearranges the characters |
| CharShuffle.UnshuffleTimesShuffleTimes | src/conditions-n-loops-tasks.js:460-485 | k backward steps undo k forward steps |
| CharShuffle.ShuffleTimesPeriod | src/conditions-n-loops-tasks.js:492-511 | if p steps bring a string back, only the step count modulo p matters, which is the reduction the source relies on |
| CharShuffle.ShiftCounts | src/conditions-n-loops-tasks.js:504-508 | the two distances to the neighbouring multiples of the cycle length are r = iterations mod L and L - r |
| CharShuffle.BackwardStepsWhenCycle | src/conditions-n-loops-tasks.js:517-528 | when L steps bring an even-length string back, L - r backward steps reach the same string as r forward steps |
| CharShuffle.RepeatShuffleOne | src/conditions-n-loops-tasks.js:499-502 | the loop applies the forward step exactly n times, and does nothing for a count that is not positive |
| CharShuffle.RepeatShuffleOneBack | src/conditions-n-loops-tasks.js:525-528 | the loop applies the backward step exactly n times |
| CharShuffle.ShuffleChar | src/conditions-n-loops-tasks.js:487-532 | the source's branches, with JavaScript's truncating `%` on line 493, give ShuffleCharResult: the string itself when iterations is not positive or is a multiple of L = floor(n/2) + 1, r forward steps on the forward path and r backward steps on the backward path, where r = iterations mod L |
| CharShuffle.ShuffleCharResult | src/conditions-n-loops-tasks.js:487-532 | the as-written result that both findings below are measured against; it keeps the length of the string |
| CharShuffle.ShuffleCharPermutation | src/conditions-n-loops-tasks.js:487-532 | on every path the result is a rearrangement of the characters of the string |
| CharShuffle.ShuffleCharShortRuns | src/conditions-n-loops-tasks.js:492-502 | a count that is not positive or is a multiple of L leaves the string unchanged, and fewer than L iterations give exactly that many forward steps |
| CharShuffle.ShuffleExampleDigits | src/conditions-n-loops-tasks.js:452 | '012345' shuffled once is '024135' |
| CharShuffle.ShuffleExampleLetters | src/conditions-n-loops-tasks.js:455-457 | 'qwerty' shuffled twice is 'qtrewy', and three times 'qrwtey' |
| CharShuffle.SixCycle | src/conditions-n-loops-tasks.js:456 | '012345' gives '031425' after three steps and comes back after four |
| CharShuffle.ShuffleCharExamples | src/conditions-n-loops-tasks.js:452-456 | shuffleChar gives '024135' for ('012345', 1), 'qtrewy' for ('qwerty', 2) and '031425' for ('012345', 3) |
| CharShuffle.AssumedCycleIsWrong | src/conditions-n-loops-tasks.js:488-497 | for '0123' and 3 iterations the source returns '0123', while three forward steps give '0213' |
| CharShuffle.BackwardPathUsesWrongCount | src/conditions-n-loops-tasks.js:524 | for '012345' and 7 iterations the backward path is taken and returns '024135', while seven forward steps give '031425' |
| CharShuffle.ShuffleCharFixed | src/conditions-n-loops-tasks.js:487-532 | the corrected shuffle: the result is always exactly `iterations` forward steps, with the count reduced by the string's true cycle |
| NearestBigger.DigitsOf | src/conditions-n-loops-tasks.js:556-560 | the division loop yields the decimal digits, least significant first, and none for a number <= 0 |
| NearestBigger.FindDescent | src/conditions-n-loops-tasks.js:562-572 | the search finds the lowest index whose digit is smaller than the digit below it; when there is none, the digits are already in their largest arrangement |
| NearestBigger.SwapShape | src/conditions-n-loops-tasks.js:578-582 | when the descent is at index 1, one swap produces the next arrangement |
| NearestBigger.SwapAndSortBelow | src/conditions-n-loops-tasks.js:583-604 | the sort, search and swap, descending sort and copy-back produce the next arrangement: the smallest larger digit at the pivot and the rest below it in the smallest order |
| NearestBigger.Assemble | src/conditions-n-loops-tasks.js:605-610 | the loop computes the value of the digits |
| NearestBigger.PivotShapeIsNearest | src/conditions-n-loops-tasks.js:551-611 | the next arrangement is a rearrangement of the digits, is larger, and no rearrangement lies strictly between the two |
| NearestBigger.NoLargerNumber | src/conditions-n-loops-tasks.js:574-576 | when the digits are in their largest arrangement, no larger number has the same digits, so returning the number is right |
| NearestBigger.NearestNumber | src/conditions-n-loops-tasks.js:551-611 | the assembled number is larger, has the same digits, and no number in between has them |
| NearestBigger.NearestUnique | src/conditions-n-loops-tasks.js:551-611 | any result meeting the contract of getNearestBigger is that assembled number, so the contract determines the answer |
| NearestBigger.GetNearestBigger | src/conditions-n-loops-tasks.js:551-611 | the result is the least number above the input with the same digits; it is the input itself exactly when the digits are in their largest arrangement, and also when the input is not positive |
| NearestBigger.NearestBiggerExample1 | src/conditions-n-loops-tasks.js:540 | 12345 gives 12354 |
| NearestBigger.NearestBiggerExample2 | src/conditions-n-loops-tasks.js:545 | 90822 gives 92028 |
| NearestBigger.NearestBiggerExample3 | src/conditions-n-loops-tasks.js:546 | 321321 gives 322113 |

## Left out

- JavaScript numbers are doubles. The model uses unbounded integers throughout, so getMaxNumber's fractional example (-0.1, 0, 0.2) at line 39 is not modelled. Neither is the loss of precision of getNearestBigger, isContainNumber and the spiral count on numbers beyond 2^53.
- NumberWords.Word: for a character other than a digit, '.', ',' or '-', the source looks up `words[n]`, which is missing. String concatenation then appends the text "undefined". The model appends "undefined" in that case too. The `Number.isNaN` test on line 184 is always false for a string, so it is not modelled as a branch. The round trip is stated for digits, '.', ',' and '-' only.
- Scans.GetIndexOf: the letter is a single character. The source's example on line 228 passes 'ะต', which is two code points (U+0E30 and U+0E15), not one letter. Neither occurs in 'qwerty', and no single `str[i]` equals a two-character string, so the source returns -1 there although its comment says 4. That example is not modelled.
- CharShuffle.ShuffleOneBack: odd lengths are not modelled. On an odd length the source's loop (lines 466-469) reads one element past the end of the first half and appends the text "undefined". Lines 470-472 then append the first half's last character a second time; for length 1 the first half is empty, so they append a second "undefined". The result is not a permutation of the input. ShuffleChar's precondition excludes only the case where this odd-length backward path would run.
- CharShuffle.ShuffleCharFixed: the count is a natural number. For a negative count the source returns the string unchanged, as ShuffleChar models; the corrected version is stated for the counts where "apply the step that many times" has a meaning.
- SpiralMatrix.GetSpiralMatrix: the size is a natural number. For a negative size the source's loop never ends, because its count stays below size².
- SpiralMatrix.GetSpiralMatrix builds a fresh `array2` rather than an array of row arrays. The rows of the source's matrix cannot alias each other, so nothing is lost.
- MatrixRotation.RotateMatrix: the input is a square `array2`. The source reads the size from the number of rows alone, and its in-place exchange only makes sense for a square matrix. The source's matrix is an array of row references, so a caller can pass the same row twice; the exchange on lines 388-392 then writes through the shared row. For r = [1, 2], rotateMatrix([r, r]) gives [[2, 1], [2, 1]] instead of the quarter turn [[1, 1], [2, 2]]. An `array2` has no shared rows, so the model does not capture this aliasing.
- NearestBigger.GetNearestBigger: the source updates its local `digits` array in place (lines 557, 579-580, 593 and 601). The model passes the digits as a `seq<int>` value from step to step. The array never leaves the function, so no caller can observe the difference.
- getNearestBigger's two calls to `Array.prototype.sort` with comparators (lines 587 and 598) are modelled by QuickSort.SortByAsc and QuickSort.SortByDesc. The model specifies the sorted order, not the engine's sorting algorithm.
- Strings: JavaScript strings are sequences of UTF-16 code units, while a Dafny `string` holds Unicode scalar values. The model assumes input within the Basic Multilingual Plane, where the two agree. Outside it they differ. For example, isPalindrome('😀') is false in the source, because line 211 compares the two surrogate halves, but the model returns true. getIndexOf, the shuffles and convertNumberToString differ in the same way.
- The remarks about very large inputs and optimisation are performance advice. Nothing in the model depends on them.
- The banner comment and the `module.exports` table are not part of this model.

## Findings

| source | as written | input that shows it | evidently intended | confidence | as-written member | corrected member |
|---|---|---|---|---|---|---|
| src/conditions-n-loops-tasks.js:488-497 | shuffleChar takes floor(n/2) + 1 as the number of steps after which the forward shuffle repeats, and returns the string unchanged when that many iterations are asked | '0123' with 3 iterations: the source returns '0123', but three forward steps give '0213' (the true cycle of '0123' is 2) | the result of applying the forward step `iterations` times | not executed | CharShuffle.AssumedCycleIsWrong | CharShuffle.ShuffleCharFixed |
| src/conditions-n-loops-tasks.js:524 | on the backward path the loop runs `forwardShiftIters` (r) backward steps | '012345' with 7 iterations (L = 4, r = 3): the source returns '024135', but seven forward steps give '031425' | `backShiftIters` (L - r) backward steps, which reach the forward result whenever L is a true cycle (CharShuffle.BackwardStepsWhenCycle) | not executed | CharShuffle.BackwardPathUsesWrongCount | CharShuffle.ShuffleCharFixed |
