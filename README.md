# Non-transitive dice game: verified model of the game engine

This project models the core of a two-party non-transitive dice game in Dafny.
It covers four parts:

- validating the dice the game is started with;
- the exact win-probability table between every pair of dice;
- combining the player's number with the computer's committed number in the
  fair-roll protocol;
- deciding who wins a round.

Everything lives in `game.js`.

Modules:

- `Dice` (`dice.dfy`): the `Dice` class (constructor and `roll`) and `DiceParser.parseDice`, over
  face lists that are already integers. Errors are a `Result` datatype (`EmptyFaces`, `TooFewDice`)
  instead of thrown exceptions.
- `Referee` (`referee.dfy`): the round decision at the end of a turn in `Game.start`.
- `Probability` (`probability.dfy`): `ProbabilityCalculator.calculateProbabilities`. The
  specification counts, by recursion, the face pairs for which the round referee would declare each
  outcome (`PairCount`). So table entry `[i][j]` is the probability that a player rolling die `i`
  beats a computer rolling die `j`. The source's nested loops are two methods proved against that
  count. `CountWins` holds the two inner loops over the cross product. `CalculateProbabilities`
  holds the two outer loops over pairs `i < j`. It fills a zero-initialised table held as a sequence
  of rows and writes both `[i][j]` and `[j][i]` from one pass. Probabilities are Dafny `real`
  values, which are exact rationals.
- `Fairness` (`fairness.dfy`): `FairRandomGenerator.verifyFairness`, the `rangeEnd` of
  `Game.fairRoll`, and `generateFairNumber`. In `generateFairNumber` the random draws are
  parameters and the HMAC is a function parameter applied to the decimal text of the number
  (`String(computerNumber)`). Note that nothing in game.js calls `fairRoll`: `start`
  (game.js:136-171) rolls through `playTurn` and `Dice.roll` only. So the fair-roll code is
  modelled as written, but the game never reaches it.

Notes on the source:

- `verifyFairness` (game.js:86-88) checks none of its arguments. The model adds only the
  preconditions listed under "## Left out".
- The dice errors modelled are the two the source throws from the constructor and from
  `parseDice`: no faces (game.js:6-8) and fewer than three dice (game.js:20-22). The "invalid
  dice values" error (game.js:26-30) belongs to the text parsing, which is not modelled.
- The source adds the two fair-roll numbers as doubles. `VerifyFairnessAsWritten` models that
  rounding; `VerifyFairness` is the exact combination, which the rest of the model uses (see
  "## Findings").

## Model

| member | source | states |
|---|---|---|
| Dice.NewDie | game.js:5-10 | an empty face list is refused with EmptyFaces, exactly then; any other list becomes a die holding that list unchanged |
| Dice.Roll | game.js:12-15 | whatever in-range index is drawn, the rolled value is one of the die's faces |
| Dice.BuildDice | game.js:24-32 | fails with EmptyFaces exactly when some entry has no faces; otherwise one valid die per entry, in input order, each holding its entry |
| Dice.ParseDice | game.js:19-33 | TooFewDice exactly when fewer than 3 entries; EmptyFaces exactly when there are at least 3 and one is empty; otherwise at least 3 valid dice, one per entry in order |
| Referee.Decide | game.js:160-166 | the player wins exactly when their roll is higher, the computer exactly when its roll is higher, a tie exactly when the rolls are equal |
| Referee.DecideSwapped | game.js:160-166 | exchanging the two rolls exchanges winner and loser and keeps a tie |
| Probability.CountAgainst | game.js:49-52 | the number of faces of the other die that one face wins, loses or ties against is at most that die's face count |
| Probability.PairCount | game.js:48-53 | the number of face pairs of the two dice with a given round outcome is at most the size of the cross product |
| Probability.CountAgainstPartition | game.js:49-52 | every face of the other die is counted as exactly one of win, loss or tie |
| Probability.PairCountPartition | game.js:48-55 | strict wins, strict losses and ties add up to the full cross product `|faces_i|·|faces_j|` |
| Probability.PairCountTranspose | game.js:48-57 | counting die j against die i gives, for each outcome, the count of die i against die j with the outcome mirrored; so one pass gives both directions |
| Probability.CountAgainstNoTie | game.js:50-51 | a face ties with no face of the other die exactly when it is not among them |
| Probability.PairCountNoTie | game.js:48-53 | no face pair ties exactly when the two dice share no face value |
| Probability.WinProbability | game.js:55-56 | strict-win count over the cross-product size lies in [0, 1] |
| Probability.TieProbability | game.js:50-55 | tie probability lies in [0, 1] and is 0 exactly when the dice share no face value |
| Probability.ProbabilitiesSumToOne | game.js:50-57 | P[i][j] + P[j][i] + P(tie) = 1 for every pair of dice |
| Probability.PairProbabilityBound | game.js:55-57 | P[i][j] + P[j][i] ≤ 1, with equality exactly when no face of die i equals a face of die j |
| Probability.TableLaws | game.js:38-58 | in any win-probability table the diagonal is 0, every entry is in [0, 1], and each pair's two entries sum to at most 1, exactly 1 iff the dice share no face |
| Probability.CountWins | game.js:45-53 | the two counters end as the number of face pairs where die i's face is strictly higher, and strictly lower, than die j's |
| Probability.CalculateProbabilities | game.js:37-62 | the result is a square numDice × numDice table whose diagonal stays 0 and whose entry [i][j] is the strict-win probability of die i over die j, for both i < j and i > j, so the table does not depend on which die is the outer loop variable |
| Probability.UsageDicePair | game.js:182 | for the first two dice of the non-transitive set in the usage message, die 1 beats die 2 with probability exactly 5/9 |
| Fairness.RangeEnd | game.js:113 | the result is the face count of some die and no die has more faces; it is at least 1 when every die is valid |
| Fairness.VerifyFairness | game.js:86-88 | the result lies in [0, rangeEnd) and differs from userNumber + computerNumber by a multiple of rangeEnd |
| Fairness.FairnessShift | game.js:87 | for a computer number in range, the result is the user's residue plus that number, wrapping around at most once |
| Fairness.ComputerNumberFor | game.js:87 | inverse of the combination for a fixed user number: the computer number it names for a result lies in [0, rangeEnd) |
| Fairness.FairnessBijection | game.js:87 | for a fixed user number, combining with the computer number and ComputerNumberFor undo each other on [0, rangeEnd), so combining is a bijection there |
| Fairness.FairnessInjective | game.js:87 | two different computer numbers in range never give the same result |
| Fairness.DecimalString | game.js:81 | the decimal text of a number is non-empty, made of digits, and has no leading zero |
| Fairness.DecimalRoundTrip | game.js:81 | the decimal text reads back as the number it was made from |
| Fairness.DecimalInjective | game.js:79-82 | different numbers have different decimal texts, so under one key different committed numbers are MACed over different messages |
| Fairness.GenerateFairNumber | game.js:76-84 | the commitment returns exactly the drawn number, which is in range, and exactly the 32-byte key it MACed with; the MAC is taken under that key over a text that decodes to that number |
| Fairness.NearestDouble | game.js:87 | a non-negative integer below 2^54 becomes itself below 2^53 and an even neighbour at distance at most one above |
| Fairness.VerifyFairnessAsWritten | game.js:86-88 | the source's combination with its double-rounded sum lies in [0, rangeEnd) and equals the exact combination while the sum is below 2^53 |
| Fairness.LargeUserNumberCollides | game.js:87 | with user number 2^53 and range 6, computer numbers 0 and 1 both give 2 in the source; the exact combination gives 3 for 1 |
| Fairness.AsWrittenInjectiveBelow | game.js:87 | while userNumber + rangeEnd is at most 2^53, different computer numbers in range give different results in the source too |

## Left out

- Turning argument strings into numbers (`split(",")`, `Number`, `isNaN`, game.js:25-30) is left
  out. JavaScript's coercions (an empty string gives 0, "1.5" is accepted) are not a useful target.
  The model starts from lists of integers.
- The random draws are left out: `crypto.randomInt` for the roll index, the computer's number and
  the computer's die, and `crypto.randomBytes` for the key. They become caller-supplied values in
  range. Uniformity of the draws is not modelled.
- HMAC-SHA3-256 is represented by the `mac` function parameter of `GenerateFairNumber`. Its
  cryptographic strength is not modelled.
- `TableGenerator.generateTable` (game.js:65-73) is left out. It is text formatting with
  floating-point `toFixed(2)`.
- `Game.displayHelp`, `playTurn`, the prompt and `parseInt` in `fairRoll`, the menu loop of
  `start` and the entry point are left out. They are console and stdin input/output around the
  modelled pieces.
- Fairness.VerifyFairness: takes only non-negative numbers and a positive `rangeEnd`. JavaScript's
  `%` on a negative or `NaN` user number (possible after `parseInt` of arbitrary input) truncates
  toward zero or gives `NaN`; that is not modelled. It also adds exactly, whereas the source's
  double sum is rounded above 2^53; `VerifyFairnessAsWritten` models that for user numbers up
  to 2^53 (see "## Findings").
- Fairness.FairnessShift: holds for the exact combination. For the source it is proved while the
  sum stays below 2^53 (`VerifyFairnessAsWritten`). Above that it can fail
  (`LargeUserNumberCollides`).
- Fairness.FairnessBijection: holds for the exact combination. For the source it is proved while
  userNumber + rangeEnd is at most 2^53 (`AsWrittenInjectiveBelow`). Above that it can fail
  (`LargeUserNumberCollides`).
- Fairness.FairnessInjective: holds for the exact combination. For the source it is proved while
  userNumber + rangeEnd is at most 2^53 (`AsWrittenInjectiveBelow`). Above that it can fail
  (`LargeUserNumberCollides`).
- Fairness.GenerateFairNumber: requires a range below 2^48, because `crypto.randomInt`
  (game.js:78) throws a RangeError otherwise; that error is not modelled.
- Fairness.DecimalString: gives plain digits for every natural number. JavaScript's `String`
  uses exponent form from 10^21 on, far above any number `randomInt` can draw.
- Fairness.VerifyFairnessAsWritten: stated for user numbers up to 2^53. Above that, the rounding
  of larger doubles is not modelled.
- Dice.ParseDice: its EmptyFaces branch stands for the constructor's own check (game.js:6-8).
  Command-line parsing never reaches it, because `arg.split(",")` always returns at least one
  element, so `new Dice` at game.js:31 never gets an empty list.
- Probability.WinProbability: entries are exact rationals. The source divides in IEEE-754 doubles,
  so its entries are the nearest doubles to these values, and its counters are exact only up to 2^53.
- Fairness.RangeEnd: requires at least one die. `Math.max` of no values is `-Infinity`, which
  cannot occur after `parseDice`.

## Findings

| source | as written | input that shows it | evidently intended | confidence | as-written member | corrected member |
|---|---|---|---|---|---|---|
| game.js:87 | `userNumber + computerNumber` is a double and is rounded above 2^53 before `% rangeEnd` | userNumber 9007199254740992 (2^53), rangeEnd 6: computer numbers 0 and 1 both give 2, so a large enough user number would bias the result; latent, since nothing in game.js calls `fairRoll` | the exact sum modulo rangeEnd, a bijection in the computer number | high, not executed | Fairness.VerifyFairnessAsWritten, Fairness.LargeUserNumberCollides | Fairness.VerifyFairness, Fairness.FairnessBijection |
