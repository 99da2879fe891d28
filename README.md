# Snake on a 16x16 dot matrix — a Dafny model of its game core

This project models the game logic of a Snake for an AVR microcontroller
(`main.c`). It covers the snake's body and its movement, growth and collision
rule, the apple redraw, the 32-byte bitmap sent to the 16x16 dot matrix, the
order in which the refresh routine reads that bitmap, the keypad decoding, and
one pass of the main loop.

- `grid.dfy` (module `Grid`): unsigned-char coordinates (`Coord`, 0..255,
  with explicit wrap-around on `++` and `--`), cells, directions, and the
  one-cell step of `snakeMove`.
- `keypad.dfy` (module `Keypad`): the button priority of `keyboardScan`, as
  a method over four sampled button bits and as the function `Steer` that
  specifies it.
- `display.dfy` (module `Display`): the bitmap (`Bitmap`), bit packing with
  `_BV(k)` (`Mask`, `Pack`), and `drawPicture`'s byte-to-bus mapping
  (`ReadIndex`, `DrawPicture`).
- `game.dfy` (module `Snake`): the `Game` class, with fields `body` (a
  sequence of cells, head first, in place of the doubly-linked list), `apple`,
  `direction`, `gameOver` and `display`. Its methods are `Move` (`snakeMove`),
  `Restart` (`restart`), `PrepareArray` (`prepareArray`) and `Tick` (one pass
  of `main`'s loop). The module also holds the specification functions
  `Moved`, `GameOver` and `Redraw` and the lemmas about them.

`Game.Valid()` holds between main-loop passes and `Tick` preserves it. It says:
- the body has at least two cells;
- the display buffer has exactly 32 bytes;
- every cell after the head is on the field;
- the head is on the field unless the game is over;
- the apple is on the field;
- the heading is DEAD only while the game is over.

This is why `PrepareArray` (which needs every cell on the field) can be called
whenever the game is not over.

Four behaviours of `main.c` are easy to misread; the model follows the code:
- Self collision compares the new head only with the nodes strictly between
  the head and the last node. The last node is never compared
  (`HitsSelf`, `LastNodeNeverCompared`).
- The apple's retry loop sets its cursor over the body once, before the loop.
  Only the first draw is compared with the body, and a second draw is kept
  unchecked, so the apple can end up on the snake (`Redraw`,
  `AppleCanLandOnSnake`).
- The dot array is indexed by x first, so byte `2x+g` holds column x, rows
  `8g..8g+7`, with bit k for row `8g+k` (`BitmapBit`). Row `i` of the matrix
  shows y-group `i / 8` of column `i % 8` on bus A and of column `i % 8 + 8`
  on bus C (`DrawPicture`, `ShownDot`).
- `restart` does not reset the apple (`Game.Restart`).

`rand()` is replaced by a parameter `rand: seq<nat>`: the values `rand()`
would return, in order. Each draw takes two of them modulo 16. `Move` is given
four values, enough for the at most two draws the retry loop makes, and
returns how many it used.

## Model

| member | source | states |
|---|---|---|
| `Grid.Step` | main.c:111-128 | the new head's x is (x + dx) mod 256 and its y is (y + dy) mod 256 for signed offsets dx, dy of the heading (UP y-1, RIGHT x+1, DOWN y+1, LEFT x-1; DEAD leaves the cell as it is) |
| `Grid.Inc` | main.c:117-123 | unsigned-char `++`: the result is (v + 1) mod 256 |
| `Grid.Dec` | main.c:113-127 | unsigned-char `--`: the result is (v - 1) mod 256, so 0 becomes 255 |
| `Grid.LeavesGrid` | main.c:160-163 | from a cell on the field, a step leaves the field iff it crosses a border; UP from row 0 and LEFT from column 0 wrap to 255 |
| `Keypad.Steer` | main.c:212-245 | with no button pressed the heading is unchanged; otherwise the result is a pressed button and no pressed button is tested later in the scan (RIGHT, UP, DOWN, LEFT); the result is DEAD iff DEAD came in and nothing was pressed |
| `Keypad.KeyboardScan` | main.c:210-246 | the step-by-step overriding tests compute exactly `Steer` |
| `Display.Pack` | main.c:196-204 | the byte after OR-ing `_BV(k)` for each set dot k < n, in increasing k; no bit at position n or above is set |
| `Display.PackBit` | main.c:196-204 | after OR-ing `_BV(k)` for the set dots among the first n, bit k of the byte is set iff k < n and dot k is set |
| `Display.Bitmap` | main.c:178-208 | the 32 bytes prepareArray writes: byte b packs the eight dots of column b / 2, rows 8(b % 2)..8(b % 2)+7 |
| `Display.BitmapBit` | main.c:178-208 | byte 2x+g lies in the 32-byte bitmap, and its bit k is set iff cell (x, 8g+k) is a body cell or the apple |
| `Display.ReadIndex` | main.c:275-284 | the buffer byte read for a row and bus: y-group row / 8 of column row % 8 (bus A) or row % 8 + 8 (bus C); for rows 0..15 it lies in [0,32) |
| `Display.ReadIndexInBuffer` | main.c:275-284 | every row and bus of the refresh reads a byte index in [0,32), and `Slot` recovers the row and bus from it |
| `Display.SlotReadsByte` | main.c:275-284 | every byte index in [0,32) is the one read at the row and bus `Slot` gives |
| `Display.ReadsEachByteOnce` | main.c:271-286 | the 32 reads of a refresh are pairwise distinct and cover every byte of the buffer |
| `Display.ShownDot` | main.c:275-284 | driving the matrix from the bitmap, bit k on a bus in row i is lit iff the field dot (i mod 8, +8 on bus C; 8(i div 8)+k) is a body cell or the apple |
| `Display.DrawPicture` | main.c:266-287 | returns the 16 row outputs in order; row i selects i and puts bytes ReadIndex(i, A) and ReadIndex(i, C) of the image on the two buses |
| `Snake.Draw` | main.c:54-55 | a drawn apple is `rand() % 16` in each coordinate, so it is on the field |
| `Snake.Moved` | main.c:104-159 | the body snakeMove leaves: the shifted head first, one cell longer when the head lands on the apple and as long otherwise, and after the head a prefix of the old body |
| `Snake.HitsSelf` | main.c:164-173 | the new head equals a node strictly between the head and the last node, i.e. it is in b[1..len-1] |
| `Snake.GameOver` | main.c:160-175 | snakeMove's verdict: head off the field or `HitsSelf`; when it is false the head is on the field and differs from every compared node |
| `Snake.RandUsed` | main.c:137-151 | the retry loop calls rand() 2 or 4 times: 2 exactly when the first draw is off the body |
| `Snake.Redraw` | main.c:135-151 | the new apple is on the field and is one of at most two draws; a first draw off the grown body is kept; a first draw on the body is replaced by the second draw, unchecked |
| `Snake.Game.constructor` | main.c:37-63 | the game starts with body (1,0),(0,0), an apple from two rand() values, heading RIGHT, not over, and a zeroed 32-byte display buffer |
| `Snake.Game.Move` | main.c:101-176 | the new body is `Moved(old body, old apple, d)`; on eating, the apple is `Redraw` of the grown body and 2 or 4 rand() values are used, otherwise the apple is unchanged and none is used; the result is `GameOver` of the new body |
| `Snake.Game.Restart` | main.c:248-264 | whatever its length, the body becomes (1,0) then (0,0); the apple, heading and verdict are unchanged |
| `Snake.Game.Dots` | main.c:180-190 | the fresh 16x16 dot array holds true exactly at the body cells and the apple |
| `Snake.Game.PackColumn` | main.c:194-205 | the byte built from dots (x, j)..(x, j+7) is the packing of those eight dots |
| `Snake.Game.PrepareArray` | main.c:178-208 | the first 32 bytes of the buffer become `Bitmap(body, apple)` and the rest is untouched, provided every cell is on the field |
| `Snake.Game.Tick` | main.c:65-97 | keeps `Valid`; while running: the move's body, apple and verdict, and then DEAD on game over, or a redrawn bitmap and one keypad scan; after a game over: a non-DEAD heading restarts with the apple kept, DEAD only scans the keypad |
| `Snake.MovedShape` | main.c:104-159 | the new head is the shifted old head and the old body follows it; on eating the body grows by one and keeps its tail, otherwise the new body plus the old last cell is the new head plus the old body; at least two cells remain |
| `Snake.MoveEndsGame` | main.c:160-175 | the game ends iff the new head is off the field or equals an old cell with index below length-1 (eaten) or length-2 (not eaten) |
| `Snake.WallEndsGame` | main.c:111-163 | a step across any border (LEFT at x=0, UP at y=0, RIGHT at x=15, DOWN at y=15) does not eat the apple and ends the game |
| `Snake.SelfHitEndsGame` | main.c:164-173 | a new head on an old cell below index length-2 always ends the game |
| `Snake.LastNodeNeverCompared` | main.c:164-173 | the coil (2,1),(2,2),(1,2),(1,1),(1,0) stepping LEFT with the apple at (9,9) becomes (1,1),(2,1),(2,2),(1,2),(1,1): the head equals the last node, yet the game is not over |
| `Snake.AppleCanLandOnSnake` | main.c:135-151 | a concrete run in which the second draw puts the apple on the snake |
| `Snake.FirstMoveRight` | main.c:101-176 | from the initial body heading RIGHT, apple at (5,5): body (2,0),(1,0), not over |

## Left out

- Port and data-direction register set-up and every PORTA, PORTC, PORTD and PINA access: hardware I/O. The keypad samples become four booleans and the bus writes become returned row outputs.
- `_delay_us`: settle and hold timing of the hardware.
- `malloc`, `free` and the node pointers: the body is a sequence. Allocation failure is not handled in the source and is not modelled.
- `rand()`: a foreign library call, replaced by the `rand` parameter.
- The endless `while(1)` loop and its 30 keypad scans and refreshes per move: `Tick` is one pass of the loop with a single keypad scan. The `drawPicture` calls inside it are not part of `Tick`; `DrawPicture` models one refresh on its own.
- The `scullArray` game-over image: constant display data.
- Snake.Game.Restart: the loop that walks the list and frees the middle nodes has no counterpart on a sequence. Only its result, the two-cell body, is modelled.
- Snake.Game.PrepareArray: requires every cell on the field. A cell off the field would make the source write outside its local array, which is undefined behaviour in C and is not modelled. `main` calls it only when the game is not over, where `Valid` guarantees the requirement.
- Keypad.KeyboardScan: the two tests on scan line 1 read PINA twice; the model takes one sampled bit per button.
