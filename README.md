# Snake on the TREZOR display — a verified model

This firmware build replaces the device's normal loop with a snake game on the
128×64 OLED display (`firmware/trezor.c`). The game keeps one global record,
`struct Game`: a field of `OLED_WIDTH * OLED_HEIGHT` signed cells in row-major
order, plus the head position, the direction, the trail length, the phase
(playing or game over) and a few tunable values. A positive cell is trail, and
its value is the ticks it has left. A negative cell is a bug that counts up
towards zero. A zero cell is empty. Every tick of play reads the two button edges
and turns the snake. It then moves the head one cell. Hitting the wall or the
body ends the game, and eating a bug grows the snake by one. Next, every cell of
the field moves one step toward zero, the head cell receives the length, and
sometimes a bug is dropped on a random cell. In the game-over phase the confirm
button restarts the game.

The project has two modules:

- `Snake` (`snake.dfy`) describes the record as a value (`State`). It defines
  one tick of each phase (`PlayingNext`, `OverNext`, dispatched by `Next`), the
  restart state (`Initial`) and what is drawn (`Lit`, `Frame`), and proves the
  game's rules about them as lemmas.
- `SnakeGame` (`game.dfy`) is the record as the firmware keeps it. It is a class
  `Game` whose fields the methods overwrite in place, and its field is an
  `array<int>` of `Width * Height` cells. The in-place sweep over the grid is a
  nested loop. Every update routine (`Init`, `PlayingUpdate`, `OverUpdate`,
  `Update`) is proved to leave the object in exactly the state the matching
  `Snake` function computes from the old state (`Model()`). The helpers
  `Steer`, `DecaySweep` and `SpawnBug` state only the fields they change.

The button edges (`button.YesUp`, `button.NoUp`) and the three `random32()` draws
of a tick (`r0`, `r1`, `r2`) are parameters. The display size is fixed at
128×64, the device's `OLED_WIDTH` and `OLED_HEIGHT`. The start cell (25, 0) is
therefore on the field.

Where the code does something other than what the field names suggest, the
model follows the code:

- Eating a bug adds 1 to the length (`firmware/trezor.c:131`). The
  `growth_rate` of 3 that `gameInit` stores is never read.
- The spawn writes the literal `INT16_MIN / 128` (-256), not the field
  `bug_lifetime`. Both hold the same value.
- A bug spawns exactly when the first draw is strictly greater than
  `spawn_rate`. `FirstTick` therefore describes a first tick whose draw does
  not exceed the rate. With a larger draw, a bug also lands on the field.

## Model

| member | source | states |
|---|---|---|
| Snake.TurnRight | firmware/trezor.c:90-97 | YesUp turns to the next direction in enum order, UP→RIGHT→DOWN→LEFT→UP (clockwise) |
| Snake.TurnLeft | firmware/trezor.c:98-105 | NoUp turns to the previous direction (counter-clockwise), and it undoes a YesUp turn |
| Snake.Turn | firmware/trezor.c:89-105 | input handling: both edges in one tick cancel out, no edge leaves the direction alone, and a single edge turns that way |
| Snake.Advance | firmware/trezor.c:109-114 | the head moves exactly one cell. The move is vertical iff the direction is UP or DOWN, and toward larger coordinates iff it is DOWN or RIGHT |
| Snake.Index | firmware/trezor.c:69 | GAME_CELL's offset `y*W + x` lies inside the field for every on-field (x, y), and `% W` and `/ W` recover x and y from it |
| Snake.Decayed | firmware/trezor.c:136-146 | the sweep over the whole field keeps its size; a cell is trail afterwards iff it held more than 1, and a bug iff it held less than -1 |
| Snake.DecayCell | firmware/trezor.c:140-144 | one cell of the sweep: zero stays zero, positive cells drop by one, negative cells rise by one, and no cell crosses zero |
| Snake.BugCell | firmware/trezor.c:153-155 | the cell `(r1 % W, r2 % H)` that a spawned bug lands on is on the field for every pair of draws |
| Snake.Lit | firmware/trezor.c:159-170 | gamePlayingDraw lights only on-field pixels whose cell is non-zero, and it lights every non-zero cell at its own (x, y) |
| Snake.Frame | firmware/trezor.c:192-200 | gameDraw shows the centred "GAME OVER" label exactly in the game-over phase, and while playing it shows exactly the pixels `Lit(s.field)` |
| Snake.Initial | firmware/trezor.c:71-83 | gameInit's state has every one of the W·H cells empty |
| Snake.PlayingNext | firmware/trezor.c:85-157 | gamePlayingUpdate as a value: the field keeps its size, the direction and head follow `Turn` and `Advance`, the phase becomes GAME_OVER exactly when the tick does not survive, the length grows by at most one, and the configuration is untouched. Its cell-by-cell contract is stated by `CollisionEndsGame`, `SurvivingTick` and `SurvivingNext` |
| Snake.OverNext | firmware/trezor.c:172-177 | gameOverUpdate as a value: without YesUp the record is unchanged; with it the game is playing again from (25, 0) with length 16 |
| Snake.Next | firmware/trezor.c:184-190 | gameUpdate keeps the field at W·H cells in both phases |
| Snake.CollisionEndsGame | firmware/trezor.c:116-128 | a head that leaves `[0,W)×[0,H)`, or lands on a positive cell (read before the decay), ends the game. The direction and head are updated and nothing else changes: not the field, not the length |
| Snake.SurvivingTick | firmware/trezor.c:130-156 | otherwise the phase is kept and the head moves to the target. The length grows by one iff the target held a bug. The head cell holds the new length unless the bug lands on it. When `spawn_rate < r0` the bug cell holds -256. Every other cell is exactly one decay step from its old value |
| Snake.SurvivingNext | firmware/trezor.c:125-156 | the converse of `SurvivingTick`: any state whose scalars agree with a surviving tick and whose cells satisfy that cell-by-cell description (bug cell, head cell, one decay step elsewhere) is the tick's successor, so the description determines the tick |
| Snake.DecayShedsExpiringTrail | firmware/trezor.c:138-146 | the sweep never creates trail: the trail loses exactly its cells whose value was 1 |
| Snake.TrailAfterWrite | firmware/trezor.c:148 | writing one cell changes the number of trail cells by at most one, and only in line with the signs of the old and new values |
| Snake.TrailGrowsByAtMostOne | firmware/trezor.c:118-156 | across a whole tick of play, the number of trail cells grows by at most one (the new head) |
| Snake.Inv | firmware/trezor.c:54-67 | the game invariant over `struct Game`: configuration as loaded, length in `(0, INT16_MAX]`, a playing head on the field, every cell in `[-256, len]`; it implies that every cell fits an `int16_t` |
| Snake.InitialInv | firmware/trezor.c:71-83 | the state gameInit produces satisfies the game invariant: the configuration is as loaded, the head is on the field, and every cell lies in `[-256, len]` |
| Snake.NextKeepsInv | firmware/trezor.c:184-190 | every tick of either phase keeps the invariant as long as `len` is below INT16_MAX. So every cell fits its `int16_t` and a playing head is always on the field |
| Snake.HeadIsDrawn | firmware/trezor.c:148-170 | after a surviving tick the head's pixel is lit, whether its cell holds the length or a bug spawned on it |
| Snake.GameOverWaitsForConfirm | firmware/trezor.c:172-177 | in the game-over phase a tick without YesUp changes nothing. With YesUp it yields the canonical start state, whatever came before |
| Snake.RestartShowsEmptyField | firmware/trezor.c:71-83 | right after gameInit nothing is drawn |
| Snake.FirstTick | firmware/trezor.c:71-157 | the first tick after gameInit with no input and no bug moves the head to (25, 1). That cell holds 16, every other cell stays 0, and only that pixel is lit |
| Snake.TrailTick | firmware/trezor.c:138-148 | with the head at (25, 1) = 16 above trail (25, 0) = 15, a downward tick leaves 14 and 15 behind a new head (25, 2) = 16 |
| Snake.EatTick | firmware/trezor.c:130-148 | eating a bug grows the length by one, and the bug's cell ends up holding the grown length, not the bug's decayed value |
| SnakeGame.Game.constructor | firmware/trezor.c:54-67 | the static record before gameInit: all cells and scalars zero, so the phase reads as PLAYING and the direction as UP |
| SnakeGame.Game.Init | firmware/trezor.c:71-83 | gameInit overwrites the record with `Initial()`, which does not depend on the old state, so calling it twice is the same as calling it once |
| SnakeGame.Game.Steer | firmware/trezor.c:87-114 | the direction becomes `Turn` of the old direction and the head becomes `Advance` of the old head along it. No other field changes |
| SnakeGame.Game.DecaySweep | firmware/trezor.c:136-146 | the nested in-place loop leaves every cell of the array at `DecayCell` of its old value |
| SnakeGame.Game.SpawnBug | firmware/trezor.c:150-156 | the field is unchanged unless `spawn_rate < r0`. If so, exactly the cell `BugCell(r1, r2)` becomes -256 |
| SnakeGame.Game.PlayingUpdate | firmware/trezor.c:85-157 | gamePlayingUpdate leaves the record equal to `PlayingNext` of the old record, so all the lemmas above hold of the object |
| SnakeGame.Game.OverUpdate | firmware/trezor.c:172-177 | gameOverUpdate leaves the record equal to `OverNext` of the old record |
| SnakeGame.Game.Update | firmware/trezor.c:184-190 | gameUpdate leaves the record equal to `Next` of the old record |

## Left out

- SnakeGame.Game.PlayingUpdate: requires `len < INT16_MAX`, so the `int16_t` wrap-around of `game.len++` is not modelled. The length would have to reach 32767 first.
- Snake.PlayingNext: grows `len` in unbounded arithmetic, so on eating a bug at `len == 32767` it gives 32768 where the firmware's `int16_t` wraps. It matches the firmware only while `len < INT16_MAX`, the bound `Snake.NextKeepsInv` also assumes.
- Snake.Next: inherits the same unbounded length from `Snake.PlayingNext` in the playing phase.
- SnakeGame.Game.Update: carries the same length bound for the playing phase, for the same reason.
- The field's cells are `int16_t` in the firmware and unbounded integers here. `Snake.NextKeepsInv` shows that they stay within `[-256, len]`, so no cell can overflow.
- The head coordinates are C `int`s and unbounded integers here. A playing head is on the field (`Snake.Inv`), and a tick moves it by one cell, so overflow cannot happen.
- `OLED_WIDTH` and `OLED_HEIGHT` come from `oled.h`, which is not part of this model. They are fixed at the device's 128×64.
- `buttonUpdate` (debouncing) and `random32` are not part of this model. Their results are parameters of each tick.
- Display output is not modelled. `oledClear`, `oledDrawPixel`, `oledRefresh` and `oledDrawStringCenter` are represented only by the set of lit pixels (`Snake.Lit`) or the game-over label (`Snake.Frame`).
- `main`'s boot sequence is hardware bring-up and storage calls, and is not modelled. This covers `setup`, `oledInit`, the debug-link storage wipe, the logo and the commented-out USB loop.
- The endless driver loop and `delay(game.delay)` are not modelled. One iteration is `Snake.Next` followed by `Snake.Frame`.
- `__stack_chk_guard` and `__stack_chk_fail` are not modelled. They are a halt handler that draws a dialog and spins.
- `delay`, `growth_rate` and `bug_lifetime` are loaded by gameInit and kept unchanged (`Snake.Inv`). No game logic reads them.
