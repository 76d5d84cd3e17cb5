# Falling-block game engine in Dafny

This project models the game engine of a browser falling-block puzzle game
(`tetris.js`, with the overriding row sweep and the vibration switch from
`tetris-enhancements.js`) and proves properties of that model.

The engine keeps an arena of 20 rows by 10 columns, where each cell is 0
(empty) or a colour id from 1 to 7. It also keeps an active piece (a square
matrix at a column and row), a queued next piece, the score, the cleared-line
count, the level, the best score and a game-over flag. The player's
operations are:

- move the piece sideways;
- rotate it with a wall kick;
- drop it one row, or hard-drop it to the floor.

A drop that is blocked locks the piece in the following order:

1. Merge: its blocks are written into the arena.
2. Spawn: the queued piece becomes the active piece at the top, centred, and
   the game ends if it collides there.
3. Sweep: full rows are cut out and empty rows are added on top; when any rows
   were removed, score, lines, level and best score are updated.

Modules:

- `Shapes` (`shapes.dfy`): piece matrices as values and the in-place
  quarter turn on a matrix object.
- `Pieces` (`pieces.dfy`): the seven templates and the random generator.
- `Board` (`board.dfy`): the arena, collision and merge.
- `Sweep` (`sweep.dfy`): the row sweep.
- `Scoring` (`scoring.dfy`): points, level and best score.
- `Game` (`game.dfy`): the game state as a class, with the player's
  operations as methods that update its fields.
- `Haptics` (`haptics.dfy`): the vibration on/off switch.

Randomness is a parameter. A `roll` is the index the generator picks in the
letter string `"TJLOSZI"`; a roll of 7 or more stands for a letter with no
template, which gives the 2×2 fallback piece. The generator draws the index
as the string's length (7) times `Math.random()`, truncated, which is always
between 0 and 6, so in play the fallback is never reached. The best score
saved by an earlier session is a constructor parameter.

How the code behaves in the corner cases:

- A lock merges, then spawns the next piece, and only then sweeps. So the
  game-over test at the spawn sees the merged arena before any full row is
  removed. A game over there judges the new-best announcement by the score
  before the sweep: the rows this lock clears do not count toward it.
- The sweep scans from the bottom row up to row 1. After cutting out a full
  row it examines the same index again. So once a row below it was removed,
  the original top row is shifted into the scanned range and is removed too
  if full. The top row is left alone only when no other row is full
  (`Sweep.TopRowRemovedWithOthers`).
- The recorded row numbers are one more than the index of the row that was
  cut out, and two adjacent full rows get the same number
  (`Sweep.AdjacentRowsSameNumber`).
- A row above the top of the arena does not exist, so a block there counts as
  a collision.
- A piece that spawns on locked blocks ends the game. After that the
  keyboard, the on-screen buttons and the frame loop ignore drops. A touch
  swipe that began before the game ended still moves and drops the piece
  until the finger lifts, because the swipe handler only checks how the
  touch began. The spawn test runs before the sweep. When the sweep
  removes a row, the blocks above it move down one row, and they can land on
  the cells of the piece that has just spawned. The game goes on with the
  piece overlapping them. A hard drop of that piece stops at once and locks it
  one row higher, at row -1. When the piece's top row holds a block, writing
  it into that missing row raises an error before anything is written, and
  the rest of the lock is skipped (outcome `Threw`, `Game.TopBlockAboveTop`).
  The piece is left where the drop put it. From then on each soft drop throws
  again without moving the piece, and each hard drop moves it one more row
  above the top (-2, -3, and so on) before throwing. When the timed drop of
  the frame loop throws, the loop requests no further frame. Automatic drops
  and redrawing then stop, and only drops from keys, buttons and swipes go
  on throwing.
- The game-over screen announces a new best score when the score is positive
  and at least the best. The best score is raised whenever the score passes
  it, so a score that only ties an earlier best is announced too
  (`Scoring.NewHighScoreOnTie`).
- A drop with no active piece counts as a collision: it locks (merging
  nothing) and spawns a piece. It is not a no-op.

The active and queued pieces are held in the `Game` class as cell values
(`Option<Shape>`, where `None` is the source's `null`). The in-place turn
`Shapes.Rotate` and the copying generator `Pieces.CreateRandomPiece` are
modelled on matrix objects. They are proved to produce `Shapes.Rotated` and
`Pieces.Rolled`, which the game methods use.

## Model

| member | source | states |
|---|---|---|
| Shapes.TransposeThenReverse | tetris.js:702-713 | transposing then reversing every row (positive direction) or the row order (otherwise) is the quarter turn `Rotated` |
| Shapes.Rotated | tetris.js:702-713 | a quarter turn of a square matrix is square and of the same size |
| Shapes.RotatedBack | tetris.js:765-768 | a turn in a non-zero direction followed by a turn in the opposite direction gives back the original matrix |
| Shapes.RotatedFourTimes | tetris.js:702-713 | four quarter turns in the same direction give back the original matrix |
| Shapes.Transpose | tetris.js:703-707 | the in-place swap loop leaves the matrix transposed |
| Shapes.ReverseEachRow | tetris.js:708-709 | the matrix afterwards holds every row reversed |
| Shapes.ReverseRowOrder | tetris.js:710-711 | the matrix afterwards holds the rows in reverse order |
| Shapes.Rotate | tetris.js:702-713 | rotating in place leaves the matrix equal to `Rotated` of its old cells |
| Pieces.Id | tetris.js:57-93 | each kind's colour id is between 1 and 7 |
| Pieces.Template | tetris.js:57-93 | every template is a piece: square, 2 to 4 cells wide, cells 0..7, exactly four blocks, all of them in its kind's colour id |
| Pieces.TemplateRows | tetris.js:57-93 | the seven templates are, row by row, the matrices of the piece table |
| Pieces.FallbackRows | tetris.js:802 | the fallback piece is the 2-by-2 matrix of ones |
| Pieces.Rolled | tetris.js:795-807 | every roll gives a piece: square, 2 to 4 cells wide, four blocks of one colour id |
| Pieces.RolledMatrix | tetris.js:795-807 | a roll below 7 gives the template of the letter at that index in "TJLOSZI", in that kind's colour; any other roll gives the fallback, in colour 1 |
| Pieces.EveryKindRolled | tetris.js:796-798 | each of the seven kinds is produced by some roll |
| Pieces.TurnedSize | tetris.js:702-713 | a quarter turn sends no two positions to the same place, so it keeps their number |
| Pieces.RotatedBlockCells | tetris.js:702-713 | the blocks of a turned matrix sit exactly at the turned positions of its blocks |
| Pieces.RotatedColours | tetris.js:702-713 | a turned matrix carries exactly the colour ids of the matrix |
| Pieces.RotatedIsPiece | tetris.js:702-713 | a quarter turn keeps a piece a piece, with the same colour ids and the same number of blocks |
| Pieces.CreateRandomPiece | tetris.js:795-807 | the generator returns a newly allocated matrix holding a copy of the rolled piece |
| Pieces.DeepCopy | tetris.js:806 | the copy is a newly allocated matrix with the same cells |
| Board.MergedCells | tetris.js:689-700 | after a merge, every block that lands on a cell holds the block's value and every other cell keeps its value |
| Board.NoCollisionFits | tetris.js:672-687 | a piece that does not collide lies within the walls, above the floor and on empty cells |
| Board.PlacedHigher | tetris.js:730 | moving a placed piece up one row keeps it placed |
| Board.PlacedAboveFloor | tetris.js:727-729 | a placed piece's top row is above the floor, so the hard-drop loop ends |
| Board.MergedIsBoard | tetris.js:689-700 | merging a piece keeps the arena a board, and a piece that did not collide changes no occupied cell |
| Board.SpawnPlaced | tetris.js:786-787 | a new piece at row 0, centred, lies within the walls and does not collide with an empty arena |
| Board.Empty | tetris.js:558-564 | the empty arena is a board with every cell 0 |
| Board.CreateMatrix | tetris.js:558-564 | builds `h` rows of `w` zeros |
| Board.CreateMatrixIsEmpty | tetris.js:547 | the arena built for the game is the empty board |
| Board.Collide | tetris.js:672-687 | reports a collision exactly when the piece is missing or some block lands outside the grid or on an occupied cell |
| Board.Merge | tetris.js:689-700 | succeeds exactly when every block lands inside the grid, and then returns the merged arena; otherwise nothing is written |
| Sweep.FullCount | tetris.js:813-826 | there are at most as many full rows as rows |
| Sweep.NonFull | tetris.js:813-826 | the rows kept are as many as the rows that are not full |
| Sweep.NonFullKept | tetris.js:813-826 | every kept row is an original row and is not full |
| Sweep.RemoveRowShifts | tetris.js:820-821 | cutting out row `y` keeps the row count, puts an empty row on top, moves the rows above down by one and keeps the rows below |
| Sweep.RowIsFull | tetris.js:814-818 | the cell scan reports exactly whether the row is full |
| Sweep.SweepRows | tetris-enhancements.js:477-490 | the sweep loop yields the swept arena, the number of removed rows and the recorded row numbers |
| Sweep.SweptIsBoard | tetris.js:813-826 | the sweep keeps a board a board |
| Sweep.NoFullRowLeft | tetris.js:813-826 | after the sweep no row below the top is full, and none at all when a row was removed |
| Sweep.SweepIdempotent | tetris.js:813-826 | a second sweep changes nothing and removes nothing |
| Sweep.TopRowRemovedWithOthers | tetris.js:813-826 | a full top row is removed exactly when some other row is full; otherwise the arena is unchanged |
| Sweep.RecordedSkips | tetris.js:824 | rows that are not full add no recorded numbers |
| Sweep.RecordedBounds | tetris.js:822-824 | one number is recorded per full row, each between 1 and the row count |
| Sweep.AdjacentRowsSameNumber | tetris.js:820-824 | two adjacent full rows are recorded with the same number |
| Sweep.OneFullRow | tetris.js:813-826 | a single full row below the top is cut out, counted once and recorded as its index plus one |
| Sweep.OneFullRowCounts | tetris.js:813-826 | with one full row, one row is counted and the others are kept in order |
| Sweep.OneFullRowSweepsTop | tetris.js:813-826 | one full row below the top is swept and gives an empty row on top followed by the others |
| Sweep.OneFullRowRecorded | tetris.js:822-824 | one full row is recorded as its index plus one |
| Scoring.Level | tetris.js:851 | the level is at least 1 and is the number of completed tens of lines plus one |
| Scoring.LineScorePositive | tetris.js:849 | a sweep at level 1 or more earns at least 100 points a row, and nothing exactly when no row was removed |
| Scoring.LevelRises | tetris.js:850-851 | the level never falls, rises exactly when the new rows pass a multiple of ten, and by at most one for fewer than ten rows |
| Scoring.UpdatedHigh | tetris.js:898-899 | the best score after an update is the larger of score and best |
| Scoring.NewHighScoreOnTie | tetris.js:954 | with the score never above the best, the announcement is made exactly when score equals best and is positive |
| Game.KickStep | tetris.js:763-764 | each kick moves by the current step, and the step then grows by one and changes sign |
| Game.AbortAt | tetris.js:765 | the step first exceeds a width of 2 to 4 exactly after `Tries` kicks |
| Game.KicksDistinct | tetris.js:762-770 | no column is tried twice, and the `t`-th try is at most `(t + 1) / 2` columns away |
| Game.KickSearchFirst | tetris.js:762-770 | the kick search returns the first try that does not collide, and when it returns none, every try collides |
| Game.RotateKicked | tetris.js:754-774 | the turned piece at the first free kick, or the piece unchanged at its column when every kick collides; either way a piece within the walls and above the floor |
| Game.WallKick | tetris.js:759-770 | the kick loop stops at the first free try of the kick search, or gives up exactly when there is none |
| Game.LandingRow | tetris.js:727-730 | the hard-drop loop ends one row above the first blocked row; every row from the start to it is free |
| Game.NextPiece | tetris.js:776-793 | the queued piece (or, when none is queued, a new one) is the active piece, a new piece is queued, the active piece is centred within the walls at row 0, and the collision report there is exact |
| Game.TopBlockAboveTop | tetris.js:689-700 | a piece with a block in its top row does not fit one row above the top |
| Game.Game.constructor | tetris.js:547-553 | a new game has an empty arena, no piece, zero score and lines, level 1 and the saved best score |
| Game.Game.UpdateScore | tetris.js:898-899 | the best score is raised to the score when the score beats it; no other field changes |
| Game.Game.GameOver | tetris.js:932-964 | the game is over, the new-best announcement is made exactly when the score is positive and at least the best, and no other field changes |
| Game.Game.PlayerReset | tetris.js:776-793 | the queued piece (or a new one) is active at row 0, centred, a new piece is queued, and the game ends exactly when the active piece collides there; a new best score is announced exactly when it collides and the score is positive and at least the best |
| Game.Game.ArenaSweep | tetris-enhancements.js:473-525 | the arena is swept; score, lines, level and best score are updated only when rows were removed, and the level-up report is exact |
| Game.Game.PlayerMove | tetris.js:739-752 | the piece moves by `dir` exactly when it does not collide there; the state stays valid |
| Game.Game.PlayerRotate | tetris.js:754-774 | the piece is turned and placed at the first free kick; when there is none it is turned back and put back where it was |
| Game.Game.Lock | tetris.js:719-721 | the lock succeeds exactly when the piece fits; then it spawns (ending the game exactly when the new piece collides with the merged arena), sweeps the merged arena and scores, and a new best is announced exactly when the game ended here and the score before the sweep was positive and at least the best; otherwise nothing changes and nothing is announced |
| Game.Game.PlayerDrop | tetris.js:715-724 | the piece falls one row exactly when that row is free, else it is locked as by `Lock`, with the same game-over announcement; the drop timer restarts unless the lock failed |
| Game.Game.PlayerHardDrop | tetris.js:726-737 | the piece is locked at the lowest free row reached from its row, or one row up when it already collides, as by `Lock`, with the same game-over announcement; when the lock fails the piece stays at the lock row |
| Game.Game.ResetGame | tetris.js:914-930 | the arena is emptied, counters reset, the best score kept and a piece spawned |
| Haptics.HapticFeedback.constructor | tetris-enhancements.js:20 | vibration starts switched on |
| Haptics.HapticFeedback.Toggle | tetris-enhancements.js:23-26 | the setting is inverted and the new setting is returned |
| Haptics.HapticFeedback.ToggleTwice | tetris-enhancements.js:23-26 | two toggles restore the setting and report different values |

## Left out

- Drawing on the canvas, the preview of the next piece, animations, background effects, sounds and vibration calls: these are output to the browser and change no game state.
- The saving and loading of the best score in browser storage: the saved value is the constructor's `savedHighScore`. Parsing a stored value that is not a number is not modelled.
- The update loop (`update`, tetris.js:985-1008): it adds the frame time to the drop timer and drops the piece once the timer passes `1000 / level`. It works on floating-point time and is driven by the browser. The drop timer is kept as a `real` field that drops reset to 0. A drop that throws inside `update` ends the loop, since the next frame is requested only after the drop.
- The input handlers (keyboard, touch, on-screen buttons) and their guards on the paused, started and game-over flags (the swipe handler tests them only when the touch starts). The pause toggle and `startGame` only set those flags and call `ResetGame`.
- The window wrappers that add a vibration after a hard drop or game over, the install prompt and the offline cache worker: they change no game state.
- JavaScript number precision: scores and line counts are unbounded integers, and the floor division in the level and spawn column is exact on the non-negative values that occur.
- The error thrown by a merge into a missing row is not modelled as an exception. The drop reports the outcome `Threw` and leaves the state as the error leaves it.
- Game.Game.PlayerRotate: requires a non-zero direction. Every caller passes 1, and for direction 0 the turn back would not undo the turn.
- Board.Merge: requires the piece to lie within the walls and above the floor, which the game keeps true of the active piece. A block beyond a side wall would be written past the end of a row, which the model does not represent.
- Game.Game.PlayerDrop: tests the row below without moving the piece there first. The source moves it down and back up, which ends in the same state.
- Game.Game.PlayerRotate, Game.Game.PlayerHardDrop and Game.Game.PlayerReset: compute on local values (in `RotateKicked`, `WallKick`, `LandingRow` and `NextPiece`) and write the fields afterwards. No other code runs in between, so the final state is the same.
- Game.Game: holds the active and queued pieces as values. In the source they are distinct, freshly copied matrices that only `rotate` changes in place, so no sharing between them is lost.
