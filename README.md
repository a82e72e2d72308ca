# A verified model of the falling-block game engine in `script.js`

`script.js` is a browser game in the style of Tetris. A tetromino falls on a
12-by-20 field. The player moves, rotates, soft-drops, hard-drops and holds
it. A piece that cannot fall further is merged into the field and the next
one spawns from a three-deep queue. Full rows are removed for 10, 20, 40, …
points, and every 300 points the level rises and gravity speeds up. This
project models the engine of that game in Dafny and proves what it does.

- `pieces.dfy` (module `Pieces`): the seven types, their colours and the
  shape matrices of `getPieceMatrix`.
- `rotation.dfy` (module `Rotation`): the in-place quarter turn `rotate`.
  It is a transpose by cell swaps, then a reversal of every row
  (clockwise) or of the row order (counter-clockwise).
- `field.dfy` (module `Field`): the field (`createMatrix`) and `collide`.
  It also holds the field after `merge` and the landing row of the hard
  drop.
- `sweep.dfy` (module `Sweep`): the field after `arenaSweep` and the
  points one pass awards.
- `scoring.dfy` (module `Scoring`): the level and gravity interval of
  `updateScore`.
- `keys.dfy` (module `Keys`): delayed auto shift and auto repeat for held
  keys (`handleInput`, `keyTimers`).
- `engine.dfy` (module `Engine`): the game session. The loops of `merge`,
  the kick search, the hard drop and the queue refill are module-level
  methods over values. The class `Game` holds the script's globals as
  fields, and its methods are the player actions, the frame update and the
  key, start, pause and restart handlers. Each changes the fields it names
  in `modifies`.

The session invariant is `Game.Valid`:
- the field is 20 rows of 12;
- `lastLevel` and `dropInterval` agree with the score;
- once a piece exists, it is a four-cell piece of its type's colour that
  lies inside the field;
- once the game has started, a piece exists.

Every action that cannot throw preserves `Valid`. Each action also states
its outcome in terms of specification functions: `Collides`, `Merged`,
`Swept`, `SweepPoints`, `KickSearch`, `DropRow` and `Rearm`. The session
actions relate the play state before and after (`Game.Snapshot`, a `Play`
value: field, piece, queue, score, game-over flag and hold permission)
through predicates on values:
- `SpawnedAs`, `Settled` and `Locks`: a spawn, and a lock (merge, spawn,
  sweep, holding allowed again);
- `Drop`, `HardDrop`, `Turn` and `Hold`: the player actions;
- `Pressed`: what a fresh key press does;
- `Progress`: over a frame the score never falls, without a lock only the
  piece's position changes, and after a lock holding is allowed.

These functions have their own properties, proved as lemmas:
- the sweep keeps the field's shape, leaves no full row below the top,
  puts blank rows on top and keeps the surviving rows in order;
- four turns, or a turn and its reverse, restore a matrix;
- the kick search returns the first clear attempt;
- the hard drop lands on the row above the first collision;
- key repeats are never faster than the repeat delay.

Where the code differs from what one might expect of such a game, the model
follows the code:
- rows outside the field collide whether above or below it;
- the new piece spawns, and the game-over test runs, before the sweep;
- the kick search stops on a signed test, so it tries n positions for an
  n-wide matrix, rounded up to even;
- Down first repeats after 50 ms rather than 150 ms;
- the hold swap makes no collision test;
- the sweep scans rows 19 to 1, so row 0 goes only when it slides into the
  scan after a removal;
- `startGame` runs its first frame at time 0.

## Model

| member | source | states |
|---|---|---|
| Pieces.Color | script.js:28-39 | each type's cell value: T=1, O=2, L=3, J=4, I=5, S=6, Z=7, always 1..7 |
| Pieces.PieceMatrix | script.js:58-66 | the shape matrix of each type is square, 2 to 4 wide, and holds only 0 and the type's colour |
| Pieces.CatalogCells | script.js:58-66 | the listed occupied cells of each type are four |
| Pieces.CatalogCellsExact | script.js:58-66 | the non-zero cells of each shape matrix are exactly the listed four |
| Pieces.ThreeByThreeCells | script.js:59-65 | the same for the 3-by-3 types L, J, Z, S, T |
| Pieces.CatalogIsTetromino | script.js:58-66 | every shape matrix is square with exactly four non-zero cells, all of the type's colour |
| Pieces.PieceHasCells | script.js:58-66 | a piece matrix has at least one occupied cell |
| Rotation.Reversed | script.js:530-534 | reversal keeps the length |
| Rotation.Rotate | script.js:517-535 | the swap loop and the reversals give the clockwise quarter turn for dir > 0 and the counter-clockwise one otherwise |
| Rotation.FourTurnsRestore | script.js:517-535 | four turns in the same direction give back the matrix |
| Rotation.TurnBackRestores | script.js:501-512 | a turn followed by the opposite turn gives back the matrix, which is how a failed rotation is undone |
| Rotation.TurnCellsCount | script.js:517-535 | moving cells by a quarter turn is one-to-one |
| Rotation.QuarterCWCells | script.js:517-535 | the occupied cells of a clockwise turn are the turned occupied cells |
| Rotation.QuarterCWKeepsPiece | script.js:517-535 | a clockwise turn of a piece is a piece of the same colour |
| Rotation.QuarterCCWIsThreeCW | script.js:517-535 | a counter-clockwise turn is three clockwise ones |
| Rotation.RotationKeepsPiece | script.js:517-535 | a turn either way keeps the piece square, with four cells, of one colour |
| Field.Zeros | script.js:290-296 | a row of w zeros |
| Field.CreateMatrix | script.js:290-296 | h rows of w zeros |
| Field.Collide | script.js:275-288 | true iff some non-zero piece cell lands outside the rows or columns of the field or on a non-zero cell |
| Field.NoCollisionInBounds | script.js:275-288 | a piece that does not collide lies inside the field |
| Field.BelowFieldCollides | script.js:275-288 | at or below row 20 every piece collides, so the hard drop stops |
| Field.DropRowLands | script.js:428-432 | the hard drop stops one row above the first colliding row, and no row from the start down to it collides |
| Field.InBoundsFits | script.js:405-413 | a piece inside the field can be merged there or one row higher without writing outside the columns or below the field |
| Field.FitsInBounds | script.js:405-413 | a piece that fits and has no cell above row 0 is inside the field |
| Field.HardDropFits | script.js:428-433 | from inside the field the hard drop stops at most one row up, still fitting; a cell can end above the field only when the piece already collided |
| Field.MergeOccupies | script.js:405-413 | after a merge the piece's cells hold its values, earlier cells stay occupied, and the piece collides where it was merged |
| Field.InBoundsSameShape | script.js:608-609 | being inside the field depends only on its dimensions |
| Sweep.RowFull | script.js:253-258 | the inner scan gives up at the first empty cell: true iff the row is full |
| Sweep.FullCount | script.js:250-273 | counts full rows, at most all of them |
| Sweep.NonFull | script.js:250-273 | kept rows and removed rows add up to all rows |
| Sweep.Blank | script.js:260-261 | n blank rows |
| Sweep.Pow2 | script.js:264-265 | powers of two are positive |
| Sweep.SweepPoints | script.js:264-265 | n rows removed in one pass give 10·(2^n − 1) points |
| Sweep.NoFullKeepsAll | script.js:250-273 | with no full row every row is kept |
| Sweep.NonFullRowsNotFull | script.js:250-273 | no kept row is full |
| Sweep.NonFullRowsFrom | script.js:250-273 | kept rows keep their width |
| Sweep.SweptWellFormed | script.js:250-273 | the sweep leaves 20 rows of 12 |
| Sweep.SweptLeavesNoFullRow | script.js:252 | after the sweep no row 1..19 is full |
| Sweep.FullCountSeesRow | script.js:250-273 | a full row is counted |
| Sweep.SweptTopIsBlank | script.js:260-261 | the removed rows come back as as many zero rows on top |
| Sweep.NonFullAt | script.js:260-261 | a kept row moves to its index minus the number of full rows before it |
| Sweep.FullCountSplit | script.js:250-273 | full rows of a field are those of its two parts |
| Sweep.SweepShiftsRowsDown | script.js:250-273 | every kept row moves down by exactly the number of rows removed below it, so survivors keep their order |
| Sweep.SweepLooksAtRow | script.js:252-262 | looking at one more row counts it if full and keeps it otherwise |
| Sweep.PartSwept | script.js:252-262 | a partly swept field keeps the row count |
| Sweep.PartSweptStart | script.js:252 | before the scan the field is unchanged |
| Sweep.PartSweptWellFormed | script.js:252-262 | partly swept fields keep 20 rows of 12 |
| Sweep.PartSweptNextRow | script.js:252-253 | the index the scan looks at next holds the next original row |
| Sweep.PartSweptAround | script.js:260-261 | the rows in front of and behind that index |
| Sweep.PartSweptCut | script.js:260-262 | cutting a full row and putting a blank row on top gives the next partial state |
| Sweep.PartSweptKeep | script.js:255-256 | skipping a row that is not full gives the next partial state |
| Sweep.PartSweptEnd | script.js:252 | when the scan ends the field is the swept field |
| Sweep.PartSweptBlankTop | script.js:260-261 | once every original row is looked at, the rows above are blank |
| Scoring.Level | script.js:579 | the level is floor(score/300)+1, at least 1 |
| Scoring.DropInterval | script.js:589 | max(100, 1000 − (level−1)·30), between 100 and 1000 |
| Scoring.HigherScoreFaster | script.js:576-590 | a higher score never gives a lower level or a longer interval |
| Keys.FirstDelay | script.js:724-757 | Down's first repeat is 50 ms ahead, Left's and Right's 150 ms |
| Keys.Rearm | script.js:724-757 | a held key that is due gets a timer; no other key's entry appears or disappears |
| Keys.RearmFollowsNextTimer | script.js:724-757 | rearming moves only the key's own timer, as a first press or a repeat would |
| Keys.RearmDelays | script.js:726-754 | a fresh key is set to time+150 (Down: time+50), a due repeat to time+50, a key not yet due is left alone |
| Keys.RepeatsNoFasterThanArr | script.js:730-733 | once set, a key fires only after its deadline and never twice within 50 ms |
| Keys.PressThenRepeat | script.js:724-757 | a fresh press fires at once; the next firing waits longer than the first delay |
| Keys.FiresOnFirstFrameAfterDeadline | script.js:730 | a set key fires on the first frame strictly after its timer |
| Keys.FiftyMillisecondFrames | script.js:722-733 | with 50 ms frames a held Left fires at 0, 200, 300 ms |
| Engine.SpawnFits | script.js:466-467 | a new piece at the spawn column is inside any 12-by-20 field |
| Engine.ClearRows | script.js:609 | every row is zeroed and keeps its length |
| Engine.SpawnClearOnEmpty | script.js:608-634 | on an empty field no spawned piece collides |
| Engine.EmptiedField | script.js:609 | emptying the field keeps the piece inside it |
| Engine.PieceMoved | script.js:415-448 | a piece moved within the field stays a valid piece |
| Engine.TurnedInField | script.js:501-515 | a turned piece clear of the field stays a valid piece |
| Engine.KickSearchFirstClear | script.js:505-512 | the kick search finds the first clear attempt, or all attempts are blocked |
| Engine.KickEnumerates | script.js:505-508 | the attempts move 0, +1, −1, +2, … and each offset is tried once |
| Engine.KickColumn | script.js:502-512 | clear iff the kick search finds a position, and then the piece sits there clear |
| Engine.DropTarget | script.js:429-432 | the hard drop loop ends at the landing row |
| Engine.MergeCells | script.js:405-413 | throws iff a non-zero cell is above row 0, writing nothing; otherwise the field is exactly the merged field |
| Engine.DropCells | script.js:428-433 | the landing row, then the merge there |
| Engine.DropProgress | script.js:415-426 | a drop is progress, with a lock iff the row below is blocked |
| Engine.MovesProgress | script.js:726-744 | the Left and Right moves are progress without a lock |
| Engine.ProgressChains | script.js:551-568 | progress over two steps is progress, with a lock iff either step locked |
| Engine.FrameProgress | script.js:551-568 | gravity, moves and soft drop together are progress, with a lock iff a drop locked |
| Engine.TakeNext | script.js:451-461 | the queue tops up to three, the front comes out, one more goes in: its length ends as max(old, 3) |
| Engine.Game.constructor | script.js:704-720 | the initial globals: an empty 12-by-20 field, no piece, level 1 at 1000 ms, no phase flag |
| Engine.Game.GameOver | script.js:600-606 | raises the game-over flag |
| Engine.Game.PlayerReset | script.js:450-472 | the piece is the old queue front at row 0 and column 6 − width/2; the queue length is max(old, 3); game over iff it was, or the piece collides |
| Engine.Game.SweepPass | script.js:250-266 | the field becomes the swept field and the score grows by exactly the pass's points |
| Engine.Game.ArenaSweep | script.js:250-273 | the same, with level and interval brought up to date |
| Engine.Game.UpdateScore | script.js:576-590 | `lastLevel` only rises, to the new level; the interval follows the level |
| Engine.Game.PlayerMove | script.js:441-448 | the piece moves dir columns unless it would collide there, else x is unchanged |
| Engine.Game.PlayerRotate | script.js:501-515 | `Turn`: either the turned piece at the first clear kick position, or the state exactly as it was; nothing but the matrix and x changes |
| Engine.Game.SpawnAndSweep | script.js:421-423 | `Settled`: the next piece spawns on the merged field before the sweep, the sweep's points are added, and holding is allowed again |
| Engine.Game.Lock | script.js:419-423 | `Locks`: merge where the piece stands, spawn, sweep, holding allowed again |
| Engine.Game.PlayerDrop | script.js:415-426 | `Drop`, then the counter at 0 |
| Engine.Game.Fall | script.js:416-424 | `Drop`: down one row with nothing else changed if clear, otherwise locked where it is |
| Engine.Game.DropAndMerge | script.js:428-433 | the piece lands on the drop row and is merged, or the merge throws |
| Engine.Game.PlayerHardDrop | script.js:428-439 | `HardDrop`: throws iff a cell is above the field at the landing row, and then only the row changed; otherwise locked at the landing row with the counter at 0 |
| Engine.Game.PlayerHold | script.js:474-498 | no effect unless running; then `Hold`: nothing when barred, otherwise the current type is held, field and score untouched, and the next piece spawns or the held type returns at the spawn position; holding then barred |
| Engine.Game.MoveKey | script.js:726-744 | a held, due Left or Right key moves the piece and is rearmed |
| Engine.Game.DownKey | script.js:747-756 | a held, due Down key is rearmed and drops the piece (`Drop`, counter 0); otherwise the play state and counter are unchanged |
| Engine.Game.HandleInput | script.js:724-757 | which keys fire, the timer table after the frame, and the play state: the Left and Right moves that fired, then `Drop` if Down fired |
| Engine.Game.GravityStep | script.js:551-566 | the counter grows by the elapsed time and a drop (`Drop`, counter 0) happens iff it passes the interval; otherwise the play state is unchanged |
| Engine.Game.Update | script.js:545-573 | nothing while not started, paused or over; otherwise the frame as `RunFrame` states it, with the clock at the frame time; always `Progress`: the score and level never fall, without a lock only the piece moved, and only a lock allows holding again |
| Engine.Game.RunFrame | script.js:551-568 | a drop iff counter plus elapsed time passes the interval, giving `Drop` (else the state is kept); then the Left, Right and Down keys that are due fire, the timers are rearmed, and the piece moves and soft-drops; the counter ends at 0 after any drop, else grown by the elapsed time |
| Engine.Game.TogglePause | script.js:636-650 | only when started and not over: the pause flips, and resuming resets the clock |
| Engine.Game.BeginGame | script.js:652-666 | running and unpaused, the first piece spawned (`SpawnedAs`) with the game-over flag cleared first, level up to date, clock at now |
| Engine.Game.StartGame | script.js:652-668 | the game is running with a piece, and the first frame ran unless the piece collided |
| Engine.Game.ClearField | script.js:608-613 | the field zeroed, score 0, level 1, interval 1000 |
| Engine.Game.RestartGame | script.js:608-634 | empty field, score 0, no hold, holding allowed, spawned from the kept queue, never game over at once |
| Engine.Game.TurnOrHold | script.js:782-790 | `Pressed` for every key but Space: Q turns counter-clockwise, W or Up clockwise, Shift or C holds, any other key changes nothing |
| Engine.Game.Dispatch | script.js:782-790 | `Pressed`: Space hard-drops and restarts the counter unless it throws; the other keys as above |
| Engine.Game.PressKey | script.js:777-791 | a fresh press marks the key down (Space released again unless it threw) with timer 0, and acts as `Pressed` says |
| Engine.Game.OnKeyDown | script.js:759-794 | before start only Enter acts; when over nothing; P or Esc toggle pause; paused or already-down keys do nothing; a fresh key acts as `Pressed` says |
| Engine.Game.OnKeyUp | script.js:796-799 | the key is up and its timer gone |

## Left out

- Rendering is not modelled: the canvas, the next and hold previews, the ghost piece (`getGhostY` is never called) and the DOM modals.
- Sound, background music and the level-up effect's timeout are not modelled.
- The firework particles are not modelled. The leaderboard (localStorage, JSON, dates) is not modelled. Touch controls are not modelled.
- `requestAnimationFrame` is host scheduling. `Update` is one frame. Restart and unpause each start another frame chain in the script, and the model does not track that.
- `performance.now` is an integer parameter. Frame times are integer milliseconds, not floating point.
- `Math.random` is a nondeterministic pick of one of the seven types (`RandomPiece`).
- The state after `merge` throws is not modelled beyond the throw itself. The methods that can throw report `thrown`; after a throw they promise no invariant, and no other method may be called.
- `PlayerHardDrop`: the counter restarts before the spawn and sweep, not after. Those steps touch disjoint state.
- `GravityStep`: the clock is set after the drop, not before. The drop does not read it.
- `PressKey`: the key is marked down and its timer cleared after the action, not before. No action reads the key tables, and Space is then written once with its final value.
- `PlayerMove`, `Fall`: they test the target position rather than moving there, testing and moving back. The outcome is identical.
- `RotationKeepsPiece`: it states that the values are kept for piece matrices only (four cells of one colour). It does not state that the multiset of values is kept for an arbitrary square matrix.
- `StartGame`: it states the phase after the first frame. The spawn is stated by `BeginGame`, and the frame by `Update`, whose `Progress` says the score does not fall and, without a lock, only the piece moved.
- `OnKeyDown`: on Enter before the start it states the phase only, and on P or Escape the pause flag and that the key table, field and piece are untouched. The details are in `StartGame` and `TogglePause`.
