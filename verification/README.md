# Factor–multiple game: move engine

This is a Dafny model of the move engine in the factor–multiple number game. Two players claim
numbers from a board of 1..100. After a move `n`, the next move must be a
divisor of `n` or a multiple of `n` on the board. It may not be `n` itself
or a number already claimed. The engine consists of four functions in
`services/gameLogic.ts`:

- `getFactors(n)`: the divisors of `n`, found by scanning `i` up to the
  square root and adding the pair `i, n / i` to a `Set`.
- `getMultiples(n)`: `2n, 3n, ...` up to 100.
- `getValidMoves(lastMove, selected)`: the divisors and multiples of
  `lastMove`, gathered in a `Set`. `lastMove` is deleted from it and the
  claimed numbers are filtered out.
- `getAIMove(lastMove, selected)`: the computer player. It returns `null`
  when no move is legal. Otherwise it returns the first candidate, in
  iteration order, that leaves the opponent the fewest replies.

The computer player breaks ties by iteration order, so the model keeps the
order in which JavaScript's `Set` yields its members. Three modules do this:

- `OrderedSet` (`ordered_set.dfy`) models a `Set<number>` as a
  duplicate-free sequence in insertion order.
- `NumberTheory` (`number_theory.dfy`) models `getFactors` and
  `getMultiples`.
- `MoveEngine` (`move_engine.dfy`) models `getValidMoves` and `getAIMove`.
  `getAIMove` appears twice: as a pure function (`AIMove`, with `Scan` for
  its loop) and as a loop-based method (`ChooseMove`, with `ScanMoves`).

`WorkedCases` (`worked_cases.dfy`) computes a few positions through the
model.

Each operation has a partner it is proved against:

- The divisor scan is compared with an explicit pair order (`FactorPairs`)
  and with the divisor set.
- The multiples are compared with a closed form `(k + 2) * n`.
- `ValidMoves` is compared with the rule of the game (`IsLegal`).
- The computer's choice is compared with a declarative "first minimum"
  (`FirstMinimumAt`).

The source's behaviour follows from these:

- The set gathered in `getValidMoves` yields the factor pairs `i, n / i` for
  ascending `i`, then the multiples in ascending order. `Set.add` only ever
  merges `i` with `n / i` when `n` is a perfect square, and a divisor never
  equals a multiple.
- The `Math.random` fallback at line 64 is unreachable.

Three choices follow the code as written:

- `getFactors` and `getValidMoves` return arrays in `Set` insertion order,
  not sorted. The computer's tie-break depends on that order, so the model
  keeps it.
- The computer's scan order is therefore the factor-pair order given
  above, followed by the multiples, and not ascending numeric order.
- The functions accept any number. The model covers 0 and negative numbers
  for `getFactors` (both give the empty list). `getMultiples` does not
  return normally for a negative number (see Left out).

## Model

| member | source | states |
|---|---|---|
| OrderedSet.Add | factor-multiple-game/services/gameLogic.ts:8-9 | `Set.add`: the result holds the old members plus `x`, keeps the old members in place and appends `x` only when it is new, and never introduces a duplicate |
| OrderedSet.AddAll | factor-multiple-game/services/gameLogic.ts:29 | the insertion loop of `new Set(iterable)`: the result holds the starting members and the added values, and adding keeps a duplicate-free set duplicate-free |
| OrderedSet.FromSeq | factor-multiple-game/services/gameLogic.ts:29 | `new Set([...])` has exactly the values of the array, each once |
| OrderedSet.FromSeqOfDistinct | factor-multiple-game/services/gameLogic.ts:29 | `new Set` of an array without duplicates yields that array unchanged, in the same order |
| OrderedSet.Without | factor-multiple-game/services/gameLogic.ts:31-33 | `delete` and `filter` keep exactly the members not excluded, in their order, without creating duplicates |
| OrderedSet.WithoutTwice | factor-multiple-game/services/gameLogic.ts:31-33 | deleting `lastMove` and then filtering out the claimed numbers is one filter by their union |
| OrderedSet.WithoutAppend | factor-multiple-game/services/gameLogic.ts:29-33 | filtering the divisors followed by the multiples filters each part separately |
| NumberTheory.Factors | factor-multiple-game/services/gameLogic.ts:3-13 | `getFactors` never lists a value twice, and returns the empty list for 0 (and for negative numbers, whose square root is NaN) |
| NumberTheory.FactorScan | factor-multiple-game/services/gameLogic.ts:6-11 | the scan loop keeps the set free of duplicates and stops once `i * i > n` |
| NumberTheory.ScanIsPairs | factor-multiple-game/services/gameLogic.ts:6-11 | from step `i` on, the loop appends exactly the pairs `j, n / j` of the divisors `j >= i` below the square root, a square root once |
| NumberTheory.FactorsInPairOrder | factor-multiple-game/services/gameLogic.ts:5-12 | `getFactors(n)` is the factor pairs `i, n / i` for ascending `i`, with no merging except `i == n / i` |
| NumberTheory.FactorsAreDivisors | factor-multiple-game/services/gameLogic.ts:4-12 | a value is listed by `getFactors(n)` if and only if `n` is positive and the value divides it |
| NumberTheory.FactorsHaveTrivialDivisors | factor-multiple-game/services/gameLogic.ts:6-10 | for positive `n`, both 1 and `n` are listed |
| NumberTheory.FactorsCount | factor-multiple-game/services/gameLogic.ts:5-12 | the list has exactly as many entries as `n` has divisors |
| NumberTheory.FactorsBounded | factor-multiple-game/services/gameLogic.ts:6-10 | every listed divisor lies in `1..n` |
| NumberTheory.Multiples | factor-multiple-game/services/gameLogic.ts:16-23 | `getMultiples(n)` is empty exactly when `n` is 0 or `2n` is past the board |
| NumberTheory.MultiplesFrom | factor-multiple-game/services/gameLogic.ts:19-21 | the loop starts at its first value, steps by `n`, stays on the board, and stops at the first value past 100 |
| NumberTheory.MultiplesShape | factor-multiple-game/services/gameLogic.ts:18-22 | entry `k` is `(k + 2) * n`, each entry is at most 100, and the next multiple would not fit |
| NumberTheory.MultiplesIncreasing | factor-multiple-game/services/gameLogic.ts:19-21 | the multiples are strictly increasing |
| NumberTheory.MultiplesAreMultiples | factor-multiple-game/services/gameLogic.ts:17-22 | a value is listed if and only if it is a multiple of `n` in `(n, 100]`: every one is listed and nothing else |
| NumberTheory.FactorsBelowMultiples | factor-multiple-game/services/gameLogic.ts:3-23 | every divisor of `n` is smaller than every listed multiple, so the two lists share no value |
| MoveEngine.Candidate | factor-multiple-game/services/gameLogic.ts:27-29 | a value is among the gathered candidates if and only if it divides `lastMove` or is an on-board multiple of it |
| MoveEngine.LegalOnBoard | factor-multiple-game/services/gameLogic.ts:27-33 | a legal move is positive, and at most 100 whenever `lastMove` is |
| MoveEngine.GatherIsLegal | factor-multiple-game/services/gameLogic.ts:27-33 | building the set, deleting `lastMove` and filtering out the claimed numbers keeps exactly the legal moves |
| MoveEngine.Gather | factor-multiple-game/services/gameLogic.ts:27-33 | the set of divisors and multiples, with `lastMove` deleted and the claimed numbers filtered out, holds each divisor or multiple other than `lastMove` and the claimed numbers, and holds it once |
| MoveEngine.ValidMoves | factor-multiple-game/services/gameLogic.ts:26-34 | `getValidMoves` lists each value at most once, and lists `m` if and only if `m` divides `lastMove` or is its multiple on the board, `m != lastMove`, and `m` is not claimed |
| MoveEngine.ValidMovesOnBoard | factor-multiple-game/services/gameLogic.ts:27-33 | for `lastMove` in 1..100, every valid move is in 1..100 |
| MoveEngine.ValidMovesScanOrder | factor-multiple-game/services/gameLogic.ts:29-33 | the moves come out as the factor pairs of `lastMove` for ascending `i`, then the multiples ascending, with `lastMove` and the claimed numbers dropped |
| MoveEngine.Replies | factor-multiple-game/services/gameLogic.ts:48-50 | the opponent's reply count after `move` is claimed (`nextSelectedNumbers`) is 0 if and only if no number is legal after `move` with `move` claimed |
| MoveEngine.Scan | factor-multiple-game/services/gameLogic.ts:44-56 | starting from `null` / `Infinity` and replacing the choice only on a strictly smaller count, the loop ends with a choice whenever it saw a candidate, and the choice is one of the candidates or the one it started with |
| MoveEngine.ScanStepKeepsFirstMinimum | factor-multiple-game/services/gameLogic.ts:52-55 | the strict `<` keeps the earliest of equal reply counts: after one more candidate the choice is still the first minimum |
| MoveEngine.ScanKeepsFirstMinimum | factor-multiple-game/services/gameLogic.ts:47-56 | continuing the loop from the first minimum of a prefix reaches the first minimum of the whole sequence |
| MoveEngine.ScanFindsFirstMinimum | factor-multiple-game/services/gameLogic.ts:43-56 | starting from `null` / `Infinity`, the loop picks the first candidate with the fewest replies and records its count; with no candidates it picks nothing |
| MoveEngine.AIMove | factor-multiple-game/services/gameLogic.ts:37-65 | `getAIMove` returns `null` if and only if there is no valid move, and otherwise one of the valid moves. The random fallback is never reached |
| MoveEngine.AIMoveIsFirstMinimum | factor-multiple-game/services/gameLogic.ts:43-64 | the returned move sits at a position of the scan order where no candidate leaves fewer replies and every earlier candidate leaves more |
| MoveEngine.AIMoveMinimisesReplies | factor-multiple-game/services/gameLogic.ts:46-56 | no legal move leaves the opponent fewer replies than the returned move |
| MoveEngine.AIMoveIsLegal | factor-multiple-game/services/gameLogic.ts:38-64 | the returned move obeys the rule of the game and is on the board when `lastMove` is; `null` is returned exactly when no number is legal |
| MoveEngine.AIMoveTakesWin | factor-multiple-game/services/gameLogic.ts:58-61 | when some legal move leaves the opponent no reply, the computer plays such a move |
| MoveEngine.ScanMoves | factor-multiple-game/services/gameLogic.ts:43-56 | the imperative loop picks nothing for no candidates, else a candidate with its own reply count that no candidate beats, agreeing with `Scan` |
| MoveEngine.ChooseMove | factor-multiple-game/services/gameLogic.ts:37-65 | the imperative `getAIMove` returns `null` if and only if no move is valid, a valid move otherwise, and agrees with `AIMove` |
| WorkedCases.PairsOfTwelve | factor-multiple-game/services/gameLogic.ts:6-11 | the divisor scan of 12 yields 1, 12, 2, 6, 3, 4 |
| WorkedCases.MultiplesOfTwelve | factor-multiple-game/services/gameLogic.ts:16-23 | the multiples of 12 are 24, 36, ..., 96 |
| WorkedCases.ValidMovesAfterTwelve | factor-multiple-game/services/gameLogic.ts:26-34 | on an empty board the moves after 12 are 1, 2, 6, 3, 4, 24, 36, 48, 60, 72, 84, 96 in that order |
| WorkedCases.ValidMovesAfterTwelveWithClaims | factor-multiple-game/services/gameLogic.ts:26-34 | with 2 and 24 claimed, the moves after 12 are 1, 6, 3, 4, 36, ..., 96 |
| WorkedCases.TieGoesToScanOrder | factor-multiple-game/services/gameLogic.ts:47-56 | for any scoring under which 6 and 3 tie, a scan that meets 6 first (as the scan after 12 does) keeps 6 although 3 is smaller |
| WorkedCases.ValidMovesAfterNinetySeven | factor-multiple-game/services/gameLogic.ts:26-34 | after the prime 97, whose first multiple is off the board, only 1 remains |

## Left out

- The user interface, turn handling, the timer, the opening-move rule and the shared types are outside the move engine. They are not part of this model.
- `number` is a double in the source. The model uses unbounded integers, and the game only ever passes integers 1..100. `Math.sqrt` becomes the exact integer test `i * i <= n`, which agrees with it on integers.
- `Infinity` as the starting minimum is the `NoBest` value of `Best`. It loses to every count, as `Infinity` does.
- `Math.random()`: the fallback at line 64 is proved unreachable, so no randomness is modelled.
- NumberTheory.Multiples: requires `n >= 0`. For a negative number the source's loop at line 19 counts downward without end, pushing onto the array until the runtime fails, so it does not return normally. For the same reason `ValidMoves`, `AIMove` and the methods take `nat` arguments.
- Lines 59-61: `getAIMove` returns early when the best move leaves no reply and is truthy. Line 64 returns the same move otherwise, so the early return does not change the result. `AIMove` and `ChooseMove` keep both branches.
- MoveEngine.ChooseMove: its contract does not state minimality directly. It states that the method agrees with `AIMove`, and minimality is proved for `AIMove` by `AIMoveMinimisesReplies` and `AIMoveIsFirstMinimum`.
