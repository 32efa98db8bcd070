// The game engine: the grid, the cursor, the round flag and the countdown,
// updated one key event or one timer update at a time.

module Game {
  import opened Settings
  import opened Text
  import opened Evaluator

  /** The key codes the handler tells apart; every other key is Other. */
  datatype Key = Return | Backspace | Space | Other

  /** A KEYDOWN event: its key code and the character it types. */
  datatype KeyEvent = KeyEvent(key: Key, unicode: char)

  /** How a round stands. The engine keeps only one game-over flag; the kind
    * of ending is read off the rest of the state. */
  datatype RoundStatus = Playing | Won | LostByRows | LostByTimeout

  /** A feedback row before its guess is submitted. */
  const BLANK_ROW: seq<int> := seq(GRID_SIZE, _ => EMPTY)

  class Wordle {
    var board: array2<string>      // game_board: "" or one upper-case letter per cell
    var feedback: array<seq<int>>  // feedback: one row of codes per guess
    var row: nat                   // current_row
    var col: nat                   // current_col
    var word: string               // word_to_guess
    var gameOver: bool             // game_over
    var timerActive: bool          // timer_active
    var remaining: int             // remaining_time, whole seconds
    var startTime: int             // start_time, milliseconds

    // -------------------------------------------------------------------
    // Views of the state

    /** The cells of grid row r. */
    function RowCells(r: nat): seq<string>
      reads this`board, board
      requires r < board.Length0
    {
      var b := board;
      seq(b.Length1, c requires 0 <= c < b.Length1 reads b => b[r, c])
    }

    /** `''.join(game_board[r])`: the word typed in row r. */
    function Guess(r: nat): string
      reads this`board, board
      requires r < board.Length0
    {
      Join(RowCells(r))
    }

    ghost predicate Shaped()
      reads this
    {
      board.Length0 == GRID_ROWS && board.Length1 == GRID_SIZE &&
      feedback.Length == GRID_ROWS && |word| == GRID_SIZE
    }

    /** The cursor stays on the grid, and a round in play always has a row left. */
    ghost predicate CursorOk()
      reads this
    {
      row <= GRID_ROWS && col <= GRID_SIZE &&
      (row == GRID_ROWS ==> col == 0) &&
      (!gameOver ==> row < GRID_ROWS)
    }

    /** The timer runs exactly while the round is in play, never beyond its
      * budget, and a round in play has time left. */
    ghost predicate TimerOk()
      reads this
    {
      timerActive == !gameOver &&
      0 <= remaining <= TOTAL_SECONDS &&
      (!gameOver ==> remaining > 0)
    }

    /** Submitted rows are full, the current row holds a prefix of col letters,
      * and everything after the cursor is empty. */
    ghost predicate BoardOk()
      reads this, board
      requires Shaped()
    {
      forall r, c :: 0 <= r < GRID_ROWS && 0 <= c < GRID_SIZE ==>
        if r < row || (r == row && c < col) then IsLetterCell(board[r, c]) else board[r, c] == ""
    }

    /** Each submitted row carries the evaluation of its guess; the others are blank. */
    ghost predicate FeedbackOk()
      reads this, board, feedback
      requires Shaped()
    {
      forall r :: 0 <= r < GRID_ROWS ==>
        if r < row then |Guess(r)| == |word| && feedback[r] == Evaluation(Guess(r), word)
        else feedback[r] == BLANK_ROW
    }

    /** Only the last submitted row can be a winning one, a round over with
      * time left was won or ran out of rows, and a round never runs out of
      * rows and time together. */
    ghost predicate OutcomeOk()
      reads this, feedback
      requires Shaped() && CursorOk()
    {
      (forall r :: 0 <= r < row && AllCorrect(feedback[r]) ==> r == row - 1 && gameOver && remaining > 0) &&
      (gameOver && remaining > 0 ==> row == GRID_ROWS || (0 < row && AllCorrect(feedback[row - 1]))) &&
      (row == GRID_ROWS ==> remaining > 0)
    }

    ghost predicate Valid()
      reads this, board, feedback
    {
      Shaped() && CursorOk() && TimerOk() && BoardOk() && FeedbackOk() && OutcomeOk()
    }

    /** A submitted row is all CORRECT exactly when its guess is the word. */
    lemma SubmittedRowsWon()
      requires Valid()
      ensures forall r :: 0 <= r < row ==> (AllCorrect(feedback[r]) <==> Guess(r) == word)
    {
      forall r | 0 <= r < row
        ensures AllCorrect(feedback[r]) <==> Guess(r) == word
      {
        AllCorrectIffEqual(Guess(r), word);
      }
    }

    /** The round's ending, told apart by the same tests the engine makes. */
    ghost function Status(): (s: RoundStatus)
      reads this, board, feedback
      requires Valid()
      ensures s == Playing <==> !gameOver
      ensures s == Won ==> 0 < row && Guess(row - 1) == word && remaining > 0
      ensures s == LostByRows ==> row == GRID_ROWS && remaining > 0 && Guess(row - 1) != word
      ensures s == LostByTimeout ==> row < GRID_ROWS && remaining == 0
      ensures s != Won ==> forall r :: 0 <= r < row ==> Guess(r) != word
    {
      SubmittedRowsWon();
      if !gameOver then Playing
      else if 0 < row && AllCorrect(feedback[row - 1]) then Won
      else if remaining == 0 then LostByTimeout
      else LostByRows
    }

    /** The state `reset_game` leaves: an empty grid, blank feedback, the cursor
      * at the top, a full countdown started at `now`, and the new word upper-cased. */
    ghost predicate NewRound(newWord: string, now: int)
      reads this, board, feedback
    {
      Shaped() &&
      (forall r, c :: 0 <= r < GRID_ROWS && 0 <= c < GRID_SIZE ==> board[r, c] == "") &&
      (forall r :: 0 <= r < GRID_ROWS ==> feedback[r] == BLANK_ROW) &&
      row == 0 && col == 0 &&
      remaining == TOTAL_SECONDS && timerActive && startTime == now &&
      word == Upcase(newWord)
    }

    // -------------------------------------------------------------------
    // Effects of the branches of the key handler, relating old and new state

    /** The round flag, the word and the timer are as before. */
    twostate predicate SameRound()
      reads this
    {
      word == old(word) && gameOver == old(gameOver) && timerActive == old(timerActive) &&
      remaining == old(remaining) && startTime == old(startTime)
    }

    /** Grid cell (r, c) holds v and every other cell is as before. */
    twostate predicate CellSet(r: nat, c: nat, v: string)
      reads this, board
    {
      board == old(board) && r < board.Length0 && c < board.Length1 && board[r, c] == v &&
      forall r', c' :: 0 <= r' < board.Length0 && 0 <= c' < board.Length1 && (r' != r || c' != c) ==>
        board[r', c'] == old(board[r', c'])
    }

    /** Letter entry: the upper-cased letter lands under the cursor, which moves right. */
    twostate predicate LetterTyped(ch: char)
      reads this, board, feedback
    {
      CellSet(old(row), old(col), [Upper(ch)]) &&
      row == old(row) && col == old(col) + 1 &&
      feedback == old(feedback) && unchanged(feedback) && SameRound()
    }

    /** Backspace: the cursor moves left and the cell it lands on is cleared. */
    twostate predicate LetterErased()
      reads this, board, feedback
    {
      old(col) > 0 && CellSet(old(row), old(col) - 1, "") &&
      row == old(row) && col == old(col) - 1 &&
      feedback == old(feedback) && unchanged(feedback) && SameRound()
    }

    /** Enter on a full row: that row's feedback becomes the evaluation of its
      * guess, no other row changes, the cursor moves to the start of the next
      * row, and the round ends on an all-CORRECT row or when rows run out. */
    twostate predicate RowSubmitted()
      reads this, board, feedback
    {
      board == old(board) && unchanged(board) && feedback == old(feedback) &&
      old(row) < board.Length0 && old(row) < feedback.Length &&
      |Guess(old(row))| == |word| &&
      feedback[old(row)] == Evaluation(Guess(old(row)), word) &&
      (forall r :: 0 <= r < feedback.Length && r != old(row) ==> feedback[r] == old(feedback[r])) &&
      row == old(row) + 1 && col == 0 &&
      gameOver == (AllCorrect(feedback[old(row)]) || row >= GRID_ROWS) &&
      timerActive == !gameOver &&
      word == old(word) && remaining == old(remaining) && startTime == old(startTime)
    }

    /** The event changed nothing. */
    twostate predicate Ignored()
      reads this, board, feedback
    {
      unchanged(this) && unchanged(board) && unchanged(feedback)
    }

    // -------------------------------------------------------------------
    // Operations

    /** The module-level start-up: a fresh grid, a full countdown, round in play. */
    constructor (target: string, now: int)
      requires |target| == GRID_SIZE
      ensures Valid() && NewRound(target, now) && !gameOver
      ensures fresh(board) && fresh(feedback)
    {
      board := new string[GRID_ROWS, GRID_SIZE]((r, c) => "");
      feedback := new seq<int>[GRID_ROWS](r => BLANK_ROW);
      row, col := 0, 0;
      word := Upcase(target);
      remaining := TOTAL_SECONDS;
      timerActive := true;
      startTime := now;
      gameOver := false;
    }

    /** `reset_game`: a fresh grid and feedback, cursor at the top, a full
      * countdown started at `now`, a new word. The round flag is not touched. */
    method ResetGame(newWord: string, now: int)
      requires |newWord| == GRID_SIZE
      modifies this
      ensures NewRound(newWord, now) && fresh(board) && fresh(feedback)
      ensures gameOver == old(gameOver)
    {
      board := new string[GRID_ROWS, GRID_SIZE]((r, c) => "");
      feedback := new seq<int>[GRID_ROWS](r => BLANK_ROW);
      row, col := 0, 0;
      remaining := TOTAL_SECONDS;
      timerActive := true;
      startTime := now;
      word := Upcase(newWord);
    }

    /** The letter branch of the key handler. */
    method TypeLetter(ch: char)
      requires Valid() && !gameOver && col < GRID_SIZE && IsAlpha(ch)
      modifies this`col, board
      ensures Valid() && LetterTyped(ch) && Status() == Playing
    {
      board[row, col] := [Upper(ch)];
      col := col + 1;
      forall r | 0 <= r < GRID_ROWS && r != row
        ensures Guess(r) == old(Guess(r))
      {
        assert RowCells(r) == old(RowCells(r));
      }
    }

    /** The backspace branch of the key handler. */
    method EraseLetter()
      requires Valid() && !gameOver && col > 0
      modifies this`col, board
      ensures Valid() && LetterErased() && Status() == Playing
    {
      col := col - 1;
      board[row, col] := "";
      forall r | 0 <= r < GRID_ROWS && r != row
        ensures Guess(r) == old(Guess(r))
      {
        assert RowCells(r) == old(RowCells(r));
      }
    }

    /** The Enter branch of the key handler, on a full row. */
    method Submit()
      requires Valid() && !gameOver && col == GRID_SIZE
      modifies this, feedback
      ensures Valid() && RowSubmitted()
      ensures Status() ==
        if old(Guess(row)) == word then Won
        else if row == GRID_ROWS then LostByRows
        else Playing
    {
      var guess := Guess(row);
      JoinSingles(RowCells(row));
      // The length check always passes: every cell of a full row is one letter.
      if |guess| == GRID_SIZE {
        var result := CheckWord(guess, word);
        feedback[row] := result;
        row := row + 1;
        col := 0;
        if AllCorrect(feedback[row - 1]) {
          gameOver := true;
          timerActive := false;
        } else if row >= GRID_ROWS {
          gameOver := true;
          timerActive := false;
        }
        SubmitKeepsValid(guess);
      }
    }

    /** The state Submit leaves is again valid. */
    twostate lemma SubmitKeepsValid(guess: string)
      requires old(Valid()) && !old(gameOver) && old(col) == GRID_SIZE
      requires board == old(board) && unchanged(board) && feedback == old(feedback)
      requires old(row) < GRID_ROWS && guess == old(Guess(row)) && |guess| == GRID_SIZE
      requires word == old(word) && feedback[old(row)] == Evaluation(guess, word)
      requires forall r :: 0 <= r < GRID_ROWS && r != old(row) ==> feedback[r] == old(feedback[r])
      requires row == old(row) + 1 && col == 0
      requires gameOver == (AllCorrect(feedback[old(row)]) || row >= GRID_ROWS) && timerActive == !gameOver
      requires remaining == old(remaining) && startTime == old(startTime)
      ensures Valid() && RowSubmitted()
      ensures Status() ==
        if guess == word then Won
        else if row == GRID_ROWS then LostByRows
        else Playing
    {
      assert Shaped() && CursorOk() && TimerOk();
      assert BoardOk();
      forall r | 0 <= r < GRID_ROWS
        ensures if r < row then |Guess(r)| == |word| && feedback[r] == Evaluation(Guess(r), word)
                else feedback[r] == BLANK_ROW
      {
        assert Guess(r) == old(Guess(r));
      }
      assert FeedbackOk();
      AllCorrectIffEqual(guess, word);
      assert OutcomeOk();
    }

    /** The KEYDOWN handler: while the round is in play, Enter on a full row
      * submits it, Backspace past the first column erases, and a letter key
      * with room left types; once the round is over only Space acts, and it
      * starts a new round with `newWord` at time `now`. */
    method HandleKey(ev: KeyEvent, newWord: string, now: int)
      requires Valid() && |newWord| == GRID_SIZE
      modifies this, board, feedback
      ensures Valid()
      ensures if !old(gameOver) then
          if ev.key == Return && old(col) == GRID_SIZE then RowSubmitted()
          else if ev.key == Backspace && old(col) > 0 then LetterErased()
          else if old(col) < GRID_SIZE && IsAlpha(ev.unicode) then LetterTyped(ev.unicode)
          else Ignored()
        else if ev.key == Space then NewRound(newWord, now) && !gameOver && fresh(board) && fresh(feedback)
        else Ignored()
    {
      if !gameOver {
        if ev.key == Return && col == GRID_SIZE {
          Submit();
        } else if ev.key == Backspace && col > 0 {
          EraseLetter();
        } else if col < GRID_SIZE && IsAlpha(ev.unicode) {
          TypeLetter(ev.unicode);
        }
      } else if ev.key == Space {
        ResetGame(newWord, now);
        gameOver := false;
      }
    }

    /** The timer update: while the round is in play, the remaining whole
      * seconds are recomputed from the milliseconds elapsed since the round
      * started, and the round ends when they reach 0. Once the round is over,
      * nothing changes. */
    method Tick(now: int)
      requires Valid() && startTime <= now
      modifies this`remaining, this`timerActive, this`gameOver
      ensures Valid()
      ensures old(timerActive && !gameOver) ==>
        remaining == (if TOTAL_SECONDS - (now - startTime) / 1000 < 0 then 0 else TOTAL_SECONDS - (now - startTime) / 1000) &&
        gameOver == (remaining == 0) &&
        Status() == (if remaining == 0 then LostByTimeout else Playing)
      ensures !old(timerActive && !gameOver) ==>
        remaining == old(remaining) && gameOver == old(gameOver) && timerActive == old(timerActive) &&
        Status() == old(Status())
    {
      if timerActive && !gameOver {
        var elapsed := (now - startTime) / 1000;
        remaining := if TOTAL_SECONDS - elapsed < 0 then 0 else TOTAL_SECONDS - elapsed;
        if remaining == 0 {
          timerActive := false;
          gameOver := true;
        }
      }
    }
  }
}
