# Math Blaster, modelled in Dafny

Math Blaster is a falling-arithmetic drill game written in TypeScript and React.
Problems such as `12 + 7 =` fall down a 600-pixel play area. The player types
answers. Each correct answer removes the first problem with that answer, scores
a point and speeds the fall up. A problem that reaches the floor costs a life,
and the game is over when the lives run out.

This project models the two cores of the game:

- **The problem generator** (`src/utils/gameUtils.ts`), in `GameUtils.dfy`.
  Math.random() is not called: each value it would return is a parameter in
  [0, 1), collected in a `Draws` record.
- **The game's state rules** (`src/App.tsx`), in `App.dfy`.
  - The list transforms of the frame tick, of answer submission and of the
    operation check boxes are functions.
  - The component's state and refs are the fields of `class Game`.
  - The handlers are its methods. A timer firing is a method call.

Two supporting files:

- `Types.dfy` holds the entities of `src/types.ts`.
- `JsText.dfy` holds the JavaScript string behaviour the game relies on:
  - the template literal that renders an integer;
  - `String.prototype.trim`;
  - `parseInt(s, 10)`.

A problem's text is checked against its answer by an independent reader,
`GameUtils.ParseExpression` and `GameUtils.Evaluate`. It reads
`left <symbol> right =` back and evaluates it exactly. The class invariant
`App.Game.Valid` holds between handlers:

- lives stay in 0..5 and the score is non-negative;
- the operation list has no duplicates and, outside idle, is non-empty;
- every problem in play has an id below the id counter and ids increase along
  the list;
- every problem in play is above the floor, and its text reads back as an
  expression whose value is its answer.

## Model

| member | source | states |
|---|---|---|
| JsText.Decimal | src/utils/gameUtils.ts:30 | The text `${n}` of a non-negative integer is non-empty, all decimal digits, and has no leading zero unless it is "0". |
| JsText.DecimalRoundTrip | src/utils/gameUtils.ts:30 | Reading the digits of `${n}` back gives n. |
| JsText.LeadingDigitCount | src/App.tsx:149 | The length of the leading digit run: every character before it is a digit, and the character at it, if any, is not. |
| JsText.DecimalLeads | src/App.tsx:149 | The digits of n followed by text that does not start with a digit lead with exactly the digits of n. |
| JsText.LeadingWhitespaceCount | src/App.tsx:148 | The length of the leading ECMAScript whitespace run: all whitespace before it, and a non-whitespace character at it. |
| JsText.TrailingWhitespaceCount | src/App.tsx:148 | The same for the trailing whitespace run. |
| JsText.TrimStart | src/App.tsx:148 | The start-trimmed text is the suffix of the input that follows its leading whitespace, and does not itself start with whitespace. |
| JsText.TrimEnd | src/App.tsx:148 | The end-trimmed text is the prefix of the input before its trailing whitespace, and does not itself end with whitespace. |
| JsText.Trim | src/App.tsx:148 | `trim()` is the end-trimming of the start-trimmed text; its properties are the three lemmas below. |
| JsText.TrimSlice | src/App.tsx:148 | `trim()` returns a contiguous slice of its input with only whitespace before it and after it. |
| JsText.TrimEnds | src/App.tsx:148 | Non-empty trimmed text neither starts nor ends with whitespace. |
| JsText.TrimEmpty | src/App.tsx:148 | `!currentInput.trim()` holds exactly when the input is whitespace only. |
| JsText.ParseInt | src/App.tsx:149-150 | `parseInt(s, 10)` skips leading whitespace and reads the rest as a signed number, NaN (None) when no digit follows; `JsText.ParseIntReads` states its value on every input. |
| JsText.ParseSigned | src/App.tsx:149-150 | The signed reading after the whitespace: an optional `+` or `-`, then the leading digit run, with whatever follows ignored. |
| JsText.ParseIntReads | src/App.tsx:149-150 | For whitespace w, a sign "", "+" or "-", a digit run d (leading zeros allowed) and a rest that does not continue d, `parseInt(w + sign + d + rest)` is NaN when d is empty, and otherwise the value of d, negated after "-". |
| JsText.ParseIntSplits | src/App.tsx:149-150 | Every string splits as `JsText.ParseIntReads` requires, so that lemma gives `parseInt` on every input. |
| JsText.ParseSignedReads | src/App.tsx:149-150 | The same reading for text without leading whitespace, by its signed part. |
| JsText.TrimStartKeeps | src/App.tsx:149 | parseInt skips nothing in text that starts with a non-whitespace character. |
| JsText.ParseIntOfDecimal | src/App.tsx:149 | `parseInt` reads n back from `${n}` followed by any text that does not start with a digit. |
| JsText.ParseIntOfSignedDecimal | src/App.tsx:149 | `parseInt` reads `-n` or `+n` as -n or n, with any non-digit text after the digits ignored. |
| JsText.ParseIntSkipsWhitespace | src/App.tsx:149 | Leading whitespace does not change what `parseInt` reads. |
| JsText.TypedNumberIsRead | src/App.tsx:148-149 | A player who types `${a}` passes the blank-input check with the text unchanged by `trim()`, and `parseInt` reads exactly a. |
| GameUtils.Pow10 | src/utils/gameUtils.ts:6-7 | `Math.pow(10, n)` for a natural exponent is at least 1; `GameUtils.DecimalLength` ties it to the number of digits. |
| GameUtils.ScaledFloorInRange | src/utils/gameUtils.ts:8 | `Math.floor(r * n)` lies in [0, n) for r in [0, 1). |
| GameUtils.RandomNumber | src/utils/gameUtils.ts:5-9 | getRandomNumber returns a number with exactly `digits` digits, in [10^(d-1), 10^d - 1], so at least 1. |
| GameUtils.RandomNumberCovers | src/utils/gameUtils.ts:5-9 | Every number with exactly `digits` digits is returned for some Math.random() value: the range is exact, not only a bound. |
| GameUtils.DecimalLength | src/utils/gameUtils.ts:5-9 | A number in that range is written with exactly `digits` characters. |
| GameUtils.ChosenOperation | src/utils/gameUtils.ts:20-21 | The chosen operation is one of the enabled operations. |
| GameUtils.ChosenOperationCovers | src/utils/gameUtils.ts:20-21 | Every enabled operation is chosen for some Math.random() value. |
| GameUtils.DivisionPartsDigits | src/utils/gameUtils.ts:49-51 | The division answer has digits - 1 digits, but at least one, and the divisor has exactly `digits` digits. |
| GameUtils.DivisionParts | src/utils/gameUtils.ts:49-52 | The division answer and divisor are exactly the drawn numbers, both at least 1: the `=== 0` guards never fire. |
| GameUtils.GenerateProblem | src/utils/gameUtils.ts:11-76 | A generated problem has id `currentId`, starts at y = -50 and has x in [10, 90). |
| GameUtils.Symbol | src/utils/gameUtils.ts:30-63 | The symbol of each operation (`+`, `-`, `x`, `÷`) is neither a digit, a space nor `=`, so it cannot be confused with an operand or the separators. |
| GameUtils.ProblemText | src/utils/gameUtils.ts:30-63 | The display text `${left} <symbol> ${right} =`; `GameUtils.ProblemTextReadsBack` states that it reads back as exactly that expression. |
| GameUtils.OperationOfSymbol | src/utils/gameUtils.ts:30-63 | The reader maps each displayed symbol (`+`, `-`, `x`, `÷`) back to its one operation, and nothing else to an operation. |
| GameUtils.ProblemTextReadsBack | src/utils/gameUtils.ts:30-63 | The display text `${left} <symbol> ${right} =` reads back as exactly that expression. |
| GameUtils.GenerateFailsOnlyOnLargeDividend | src/utils/gameUtils.ts:15-62 | generateProblem returns null exactly when no operation is enabled, or when division is chosen and answer * divisor reaches 10^(digits+1). |
| GameUtils.GeneratedSum | src/utils/gameUtils.ts:28-31 | An addition shows the two drawn operands in order, and its answer is their sum. |
| GameUtils.GeneratedDifference | src/utils/gameUtils.ts:32-39 | A subtraction shows the larger operand first, and its answer is their difference, never negative. |
| GameUtils.GeneratedProduct | src/utils/gameUtils.ts:40-45 | A multiplication shows `left x right`, and its answer is their product, at least 1. |
| GameUtils.GeneratedQuotient | src/utils/gameUtils.ts:46-64 | A generated division shows the dividend answer * divisor and the divisor. The dividend is below 10^(digits+1), divides exactly, and its quotient is the answer. |
| GameUtils.ExactDivision | src/utils/gameUtils.ts:53 | A multiple of the divisor leaves remainder 0, and dividing gives the multiplier back. |
| GameUtils.GeneratedProblemShowsItsAnswer | src/utils/gameUtils.ts:27-75 | Every generated problem's text reads back as an expression whose exact value is the problem's answer, and that answer is never negative. |
| GameUtils.SmallDivisionsFit | src/utils/gameUtils.ts:55-62 | With one or two digits, generateProblem never returns null once an operation is enabled. |
| GameUtils.LargeDivisionsMayFail | src/utils/gameUtils.ts:55-62 | From three digits on, with division the only operation, some draws make generateProblem return null. |
| App.Max | src/App.tsx:79 | `Math.max(a, b)` is at least both arguments and equal to one of them. |
| App.Advance | src/App.tsx:69 | Every problem falls by `speed`; nothing else about it changes and none is added or lost. |
| App.KeepOnScreen | src/App.tsx:70-74 | The filter never grows the list, and the life-lost flag is set exactly when it dropped something. |
| App.KeepOnScreenMembers | src/App.tsx:70-74 | The kept problems are exactly the problems above the floor (y < 600). |
| App.KeepOnScreenLosesLife | src/App.tsx:70-74 | The life-lost flag is set exactly when some problem reached the floor. |
| App.KeepOnScreenAppend | src/App.tsx:70-74 | Filtering keeps the original order: filtering a concatenation concatenates the filtered parts. |
| App.KeepOnScreenKeepsIdOrder | src/App.tsx:70-74 | Filtering keeps ids strictly increasing along the list. |
| App.RemoveFirstMatch | src/App.tsx:157-167 | A match is found exactly when some problem has the typed answer. Then exactly one problem is removed, and no others appear; otherwise the list is unchanged. |
| App.RemoveFirstMatchRemovesFirst | src/App.tsx:157-167 | Only the first matching problem is removed. Every other problem stays in its original order, later problems with the same answer included. |
| App.RemoveFirstMatchKeepsIdOrder | src/App.tsx:157-167 | Removing the answered problem keeps ids strictly increasing. |
| App.Attempts | src/App.tsx:93-96 | The retry loop has one possible outcome per attempt. |
| App.AttemptAt | src/App.tsx:95 | Attempt k calls generateProblem with id firstId + k, the post-incremented counter, and its own draws. |
| App.FirstSuccess | src/App.tsx:93-96 | The loop stops after the first non-null result, with every earlier attempt null. With no success it makes every attempt. |
| App.GenerateWithRetry | src/App.tsx:93-96 | The retry loop's outcome, the number of calls and the problem made, as the first success among the attempts; its meaning is stated by the next two lemmas. |
| App.GenerateWithRetryStops | src/App.tsx:91-97 | A generation tick makes at most 5 calls. With no success it makes all of them; otherwise its last call, with id firstId + (calls - 1), made the problem. |
| App.GenerateWithRetryFailures | src/App.tsx:91-97 | Every call before the last one, and every call of a tick with no success, returned null. |
| App.Deduplicate | src/App.tsx:212-214 | `Array.from(new Set(ops))` has no duplicates and the same members as ops. |
| App.DeduplicateKeepsDistinct | src/App.tsx:212-214 | On a duplicate-free list the set round trip changes nothing, order included. |
| App.Without | src/App.tsx:213 | `Set.delete` leaves every member except the deleted one. |
| App.WithoutKeepsDistinct | src/App.tsx:213 | Deleting keeps the list duplicate-free. |
| App.WithoutAbsent | src/App.tsx:213 | Deleting an absent operation changes nothing. |
| App.WithoutAt | src/App.tsx:213 | Deleting a present operation removes just its position and keeps the rest in order. |
| App.ToggleOperation | src/App.tsx:209-216 | After a toggle, the operation is enabled exactly when its box is checked. Every other operation is unchanged and the list stays duplicate-free. |
| App.ToggleOperationKeepsOrder | src/App.tsx:209-216 | Adding keeps the existing order and appends a new operation at the end. Deleting removes only that operation. Toggling to the state it already has changes nothing. |
| App.AllInPlayAfterFall | src/App.tsx:65-83 | A frame tick keeps the list one of problems in play with increasing ids. |
| App.AllInPlayAfterRemoval | src/App.tsx:154-182 | Removing an answered problem keeps the list in play. |
| App.AllInPlayAfterAppend | src/App.tsx:97 | Appending a new problem whose id is at or above the old counter keeps ids increasing and the list in play. |
| App.GeneratedInPlay | src/App.tsx:95 | A problem generateProblem makes is in play once the counter has passed its id. |
| App.AllInPlayWiderBound | src/App.tsx:95 | Raising the id counter keeps every problem in play. |
| App.Game.constructor | src/App.tsx:30-43 | The first render: the stored player name, score 0, 5 lives, no problems, idle, default settings `{1, ['+'], 0.7, 0.03}`, counter 0, speed 0.7. |
| App.Game.Tick | src/App.tsx:65-83 | The new list is the old list advanced by the current speed, then filtered to y < 600. Lives drop by one, floored at 0, exactly when something was dropped. Score and speed are untouched, and the invariant holds. |
| App.Game.GenerationTick | src/App.tsx:89-100 | The counter advances once per generateProblem call, failures included. The problem made, if any, is appended and nothing else changes. Ids stay unique and increasing. |
| App.Game.GenerateRetrying | src/App.tsx:91-96 | The retry loop as written: the calls it makes and the problem it returns are those of `GenerateWithRetry`, and that problem is in play under the new counter. |
| App.Game.CheckGameOver | src/App.tsx:103-110 | A game in play with no lives left becomes over and announces the score. Otherwise nothing changes. |
| App.Game.EndGame | src/App.tsx:488-501 | End Game, shown only while playing, ends the game and announces the score. |
| App.Game.ResetGame | src/App.tsx:204 | Play Again sets only the status to idle; score, lives and problems are kept. |
| App.Game.StartGame | src/App.tsx:194-203 | Without a player name, or with no operation enabled, nothing changes and a warning is raised. Otherwise score 0, 5 lives, no problems, empty input, counter 0, speed = initialSpeed, playing. |
| App.Game.SetInput | src/App.tsx:143 | The answer box's text is stored as typed. |
| App.Game.SubmitAnswer | src/App.tsx:146-191 | Nothing changes outside play or with blank input. Unreadable input only warns. Otherwise the first problem with the typed answer is removed. A match adds one to the score and the speed increment to the speed, and clears the input; no match changes nothing. The score never decreases. |
| App.Game.RemoveAnswered | src/App.tsx:154-182 | The setProblems update: the list loses its first problem with the answer. On a match the score, speed and input change as above; otherwise they are kept. |
| App.Game.SetDigits | src/App.tsx:205-208 | Digits become max(1, v), or 1 when the box holds no number; the other settings are unchanged. |
| App.Game.SetOperation | src/App.tsx:209-216 | The enabled operations become the toggled list; the other settings are unchanged. |

## Left out

- Timers and scheduling are not modelled. requestAnimationFrame, setInterval (2500 ms) and setTimeout are replaced by the caller invoking `Tick`, `GenerationTick` and `CheckGameOver` while the game is playing. The start/stop effect (src/App.tsx:112-131) that arms and clears them is not modelled.
- React's deferred evaluation of state updaters and its StrictMode double invocation are not modelled. Each handler's updates take effect at once and in order. Under deferred evaluation, the source can raise "Try again!" even after a correct answer, because `matchFoundInSubmission` is read before the updater runs. StrictMode could also run the `setLives` call inside the frame tick's updater twice.
- App.Game.SubmitAnswer: the returned toast is `Correct` on a match and `TryAgain` only without one. The source's promise holds only when the updater runs at once.
- Toast titles, descriptions and durations are not modelled: a toast is a `Toast` value naming its kind and the player name or score it shows.
- Floating point is not modelled. Positions, speed and Math.random() values are exact reals. IEEE rounding of `y + speed` and of `Math.random() * 80 + 10` is not captured.
- Integers are unbounded: JavaScript's loss of precision above 2^53, reachable with very large digit settings, is not captured.
- JsText.Decimal: `${n}` switches to exponent notation (`1e+21`) from 10^21 on, reachable with very large digit settings; the model always writes every digit.
- App.Game.SetDigits: the number box's valueAsNumber is an integer here. A fractional or very large value is stored as it is by the source (src/App.tsx:206); fractional values are not modelled, and very large ones are stored exactly, without JavaScript's rounding.
- GameUtils.RandomNumber: the digit count is a natural number. A fractional `digits` typed into the number box is not modelled.
- The order in which Math.random() is called is not modelled: each call's value is a named field of `Draws`, not a position in a stream.
- Console logging, focus handling and rendering are not modelled.
- The player-name handlers (handleNameChange, handleSetPlayerName, handleEditName) and localStorage are not modelled. The stored name is the constructor's parameter.
- The `default: throw` branch of generateProblem cannot be reached: `Operation` has exactly four cases.
- Which controls are shown in each status (src/App.tsx:284, 475, 488, 507) becomes a `requires` on the handlers behind them: StartGame, SetDigits and SetOperation need idle, EndGame needs playing, ResetGame needs game over. The frame and generation ticks run only while playing (src/App.tsx:113-118).
