// Constants of the game.

module Settings {
  /** Letters per word, i.e. columns of the grid. */
  const GRID_SIZE: nat := 5
  /** Guesses allowed per round, i.e. rows of the grid. */
  const GRID_ROWS: nat := 6
  /** Time budget of a round, in whole seconds (2 minutes 30 seconds). */
  const TOTAL_SECONDS: nat := 150

  // Feedback codes stored per cell. EMPTY doubles as the mark of a guess
  // letter that is not in the target: the evaluator starts every position
  // at 0 and never writes ABSENT.
  const EMPTY: int := 0
  const ABSENT: int := 1
  const PRESENT: int := 2
  const CORRECT: int := 3
}
