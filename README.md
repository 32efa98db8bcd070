# Timed Wordle engine

This project models the engine of a timed Wordle game in Dafny. The player has six rows to guess a hidden five-letter word. Letters are typed into the current row, Backspace erases the last one, and Return submits a full row. A countdown of 150 seconds ends the round when it reaches zero. Once the round is over, only Space has an effect: it starts a new round.

The model has four files:

- `settings.dfy`: the constants `GRID_SIZE` (5), `GRID_ROWS` (6) and `TOTAL_SECONDS` (150), and the feedback codes.
  - 0 marks an empty cell; 1 marks an absent letter.
  - 2 marks a letter present elsewhere in the word; 3 marks a correct letter.
- `text.dfy`: the ASCII letter test and upper-casing the key handler applies, and the joining of a row's cells into a guess.
- `evaluator.dfy`: the guess evaluator.
  - `Evaluation` is its specification function: a first pass of exact matches, then a left-to-right second pass (`SecondPass`) over the pool of unconsumed target letters.
  - `CheckWord` is the two-loop method over arrays, proved equal to `Evaluation`.
  - The lemmas state what an evaluation means:
    - green exactly at equal positions;
    - a yellow letter has an unmatched counterpart in the target;
    - a letter is never marked more often than the target holds it;
    - a letter left unmarked is one whose target copies are all used up;
    - the leftmost repeat is marked first;
    - a row is all green exactly when the guess is the word.
- `game.dfy`: class `Wordle`, the game state.
  - Its fields are the board (`array2<string>`), the feedback rows (`array<seq<int>>`), the cursor, the word, the single `gameOver` flag, and the timer fields.
  - Its methods are one per branch of the key handler, plus the dispatcher `HandleKey`, the reset and the timer update `Tick`.
  - `Valid()` is the invariant every method except `ResetGame` keeps. Called on a finished round, `ResetGame` restarts the timer while `gameOver` is still set. `HandleKey` restores the invariant by clearing `gameOver` right after the reset, as main.py:266 does. The invariant says:
    - the cursor stays in range;
    - typed cells hold one capital letter;
    - every submitted row's feedback is the evaluation of that row;
    - `gameOver` holds exactly when the timer is stopped;
    - the remaining time lies in 0..150 and is positive while the round runs.
  - The ghost `Status()` derives won, lost by rows, or lost by timeout from those fields. The program itself keeps only one `gameOver` flag.

The evaluator never writes code 1. A letter that is not in the word keeps the initial 0, the same value as an empty cell, so such a cell is drawn in the empty-cell colour, not the grey "absent" colour. The model keeps this: `EvaluationMarks` proves that every entry is 0, 2 or 3.

## Model

| member | source | states |
|---|---|---|
| Text.IsAlpha | main.py:259 | The letter test of the key handler: exactly the ASCII letters a..z and A..Z pass |
| Text.Upcase | main.py:61 | The word is upper-cased letter by letter (here and again at main.py:210): same length, every letter becomes a capital A..Z, each lower-case letter becomes its own capital (the ASCII case offset), and every character that is not a lower-case letter is kept |
| Text.Join | main.py:232 | The row's cells joined into the guess, cell after cell; for one-letter cells its length and letters are stated by `Text.JoinSingles` |
| Text.Upper | main.py:259-260 | A typed letter is stored as its capital: a letter maps into A..Z by the ASCII case offset, and any other character is left alone |
| Text.JoinSingles | main.py:232-235 | Joining five one-letter cells gives a five-letter guess, whose i-th letter is the i-th cell, so the length test at submission always passes |
| Evaluator.ExactMarks | main.py:181-189 | Marks after the first pass, one per letter; with `Evaluator.Unconsumed` it splits every letter's target count between exact matches and the pool, as `Evaluator.ExactSplit` proves |
| Evaluator.Unconsumed | main.py:182-189 | The copy of the target after the first pass, one entry per letter, with the exact matches used up (set to None in the program); its offers are counted by `Evaluator.ExactSplit` |
| Evaluator.SecondPass | main.py:192-196 | The second pass keeps the length of the marks and of the pool; which marks it changes, what it consumes and what it leaves is proved in the `Evaluator.SecondPass*` lemmas below |
| Evaluator.Evaluation | main.py:179-198 | The row `check_word` returns: one mark per letter of the guess. Its meaning is proved in `Evaluator.EvaluationMarks`, `EvaluationPresent`, `EvaluationNeverOvercounts`, `EvaluationExhausts`, `EvaluationLeftmost` and `AllCorrectIffEqual`, and `Evaluator.CheckWord` is proved to compute it |
| Evaluator.AllCorrect | main.py:244 | The win test on a feedback row: every mark is 3. `Evaluator.AllCorrectIffEqual` proves it holds of an evaluation exactly when the guess is the word |
| Evaluator.IndexOf | main.py:196 | `list.index`: the position found holds the letter, and no earlier position does |
| Evaluator.ExactSplit | main.py:182-189 | After the first pass, for every letter, the exact matches plus the copies left in the pool equal the letter's count in the target |
| Evaluator.SecondPassFrame | main.py:192-196 | The second pass only turns not-yet-green positions at or after its start into 2, and only turns pool entries into consumed |
| Evaluator.SecondPassConserves | main.py:192-196 | For every letter, the marked positions plus the pool copies are conserved by the second pass: each yellow consumes exactly one target copy |
| Evaluator.SecondPassPresent | main.py:194-196 | A position the second pass marks 2 had its letter in the unconsumed pool |
| Evaluator.SecondPassExhausts | main.py:192-196 | A position the second pass leaves 0 has no copy of its letter left in the final pool |
| Evaluator.SecondPassLeftmost | main.py:194-196 | A repeated letter left 0 at some position is not marked 2 at any later position |
| Evaluator.EvaluationMarks | main.py:181-198 | The result has one entry per letter; it is 3 exactly where guess and target agree; every entry is 0, 2 or 3, and none is the absent code 1 |
| Evaluator.EvaluationPresent | main.py:192-196 | A yellow position is not an exact match, and the target holds its letter at a position the guess did not match exactly |
| Evaluator.EvaluationNeverOvercounts | main.py:182-196 | For every letter, the positions holding it and marked 2 or 3 number no more than its occurrences in the target |
| Evaluator.EvaluationExhausts | main.py:192-196 | A position left 0 is not an exact match, and every target copy of its letter is already used by a 2 or a 3 |
| Evaluator.EvaluationLeftmost | main.py:194-196 | Among repeats of a letter, the earlier ones are marked first: a later copy is not yellow while an earlier one stays 0 |
| Evaluator.AllCorrectIffEqual | main.py:186-198 | The result is all 3s exactly when the guess equals the target, in both directions |
| Evaluator.AllotLlama | main.py:179-198 | Guess LLAMA against target ALLOT evaluates to [2,3,2,0,0] |
| Evaluator.CheckWord | main.py:179-198 | The two-loop evaluator over a copy of the target computes exactly `Evaluation` of the guess and the target |
| Game.Wordle.constructor | main.py:51-62 | Initial state: newly allocated board and feedback, empty board, all-0 feedback, cursor at row 0 and column 0, 150 seconds left, timer running, start time recorded, upper-cased word, invariant established |
| Game.Wordle.ResetGame | main.py:200-210 | Reset: fresh empty board and all-0 feedback, cursor at 0 and 0, 150 seconds, timer on, new start time, new upper-cased word; `gameOver` is left as it was |
| Game.Wordle.TypeLetter | main.py:259-261 | Writes the upper-cased letter at the cursor and advances the column; the rest of the board, the feedback and the round are unchanged, the invariant holds, and the round is still in play |
| Game.Wordle.EraseLetter | main.py:254-256 | Steps the column back and clears exactly that cell; everything else is unchanged, the invariant holds, and the round is still in play |
| Game.Wordle.Submit | main.py:230-251 | Writes the row's evaluation into that feedback row only, moves to column 0 of the next row, and ends the round (timer stopped) exactly on an all-3 row or when the rows run out; the status becomes won, lost by rows, or still playing accordingly |
| Game.Wordle.SubmitKeepsValid | main.py:230-251 | The state after a submission satisfies the invariant: earlier rows keep their feedback, and the new row's feedback is its evaluation |
| Game.Wordle.HandleKey | main.py:227-266 | One key event. While playing: Return on a full row submits; otherwise Backspace past column 0 erases; otherwise a letter with room types; anything else changes nothing. After the round: Space starts a new round with `gameOver` cleared; every other key changes nothing. The invariant is kept throughout |
| Game.Wordle.Tick | main.py:268-275 | While the timer runs, remaining time becomes max(0, 150 - whole elapsed seconds) and the round ends exactly when it reaches 0 (lost by timeout). After the round, nothing changes, so a win or a loss by rows is never followed by a timeout |
| Game.Wordle.Status | main.py:243-251 | Derived outcome: playing exactly when `gameOver` is false. Won means the last submitted row is the word, with time left. Lost by rows means six rows were used, the last not the word. Lost by timeout means time ran out before the rows did. No loss has a submitted row equal to the word |
| Game.Wordle.SubmittedRowsWon | main.py:244 | Under the invariant, a submitted row's feedback is all 3s exactly when that row spells the word |

## Left out

- Drawing is not modelled: the grid, timer, title, keyboard, instructions, the end-of-round overlay and the frame rendering (main.py:64-177, 278-296) are pixel and font work.
- Window and library initialisation (main.py:11-49) is not modelled.
- The frame loop, `clock.tick` and `asyncio.sleep` (main.py:217-221, 296-301) are not modelled.
  - `HandleKey` takes one event per call.
  - A frame is the caller running `HandleKey` for each queued event, then `Tick`.
  - The clock reading `now` (milliseconds) is a parameter.
- Random word choice (main.py:8, 61, 210) and the word list it draws from are not part of this model. The new word is a parameter of the constructor and of `ResetGame`, required to have five characters. The inclusive upper bound of `random.randint(0, len(L))`, which can index one past the list, is therefore not modelled.
- The QUIT event and `pygame.quit()` are not modelled.
- Text.Upper: covers only ASCII; the Unicode-wide `isalpha` and `upper()` are not modelled, so a typed cell is always one capital A..Z.
- Text.Upcase: covers only ASCII as well, so the hidden word (upper-cased at main.py:61 and main.py:210) is modelled with ASCII case mapping only.
- Text.IsAlpha: accepts ASCII letters only; a non-ASCII letter that `str.isalpha` accepts is not typed in this model.
- Game.Wordle.Tick: requires `now >= startTime`, a monotonic clock. It says nothing about remaining time across several ticks, because the model keeps no clock history.
- Evaluator.CheckWord: requires guess and target to have `GRID_SIZE` letters. A submitted row always has five filled cells; that the word has five letters is an assumption about the word list, which is not part of this model and whose lengths the program never checks.
- Game.Wordle.constructor and Game.Wordle.ResetGame require a five-letter word, so two behaviours of the program with a word of another length are not modelled: with a longer word the exact-match pass compares only the first five positions (main.py:186-189), while the present-letter pass (main.py:194-196) still searches the whole word; guessing the first five letters wins; with a shorter word the comparison at main.py:187 indexes past the target and raises IndexError.
- The module-level `current_guess` and `elapsed_seconds` are not kept as fields. They are locals of `Submit` and `Tick`, because no other code reads them.
