# Minesweeper game engine in Dafny

A model of the engine inside the React `Minesweeper` component and of its three-digit
counter display, with proofs of what the game promises. The model has two parts.

- **The engine.** The component keeps a `field` grid, where 10 marks a mine and 0..8 counts
  the mines around a cell. It also keeps a parallel `tiles` grid of what the player sees,
  plus the flag counter, the timer, the stage (`ready`, `playing`, `complete`, `gameover`)
  and the left and right click counters.
  - A reset deals a new board.
  - A left click opens a cell, cascades through cells with no mine around, or explodes a
    mine.
  - A right click cycles a closed tile through flag and question mark.
  - After every left click on an idle tile, the victory check counts the closed tiles.
- **The counter.** It caps a value at 999, zero-pads it to three characters and lights
  seven segments per character.

Files:

- `tiles.dfy` (module `Tiles`): the tile states as a datatype. It also holds the per-tile
  rules: what an opened cell shows, the two end-of-game sweeps, and the right-click cycle.
- `board.dfy` (module `Board`): dealing a board.
  - The grids start empty.
  - Mines are placed by rejection sampling.
  - Every other cell gets its neighbour count.
  - `IsBoard` states that a field is well formed.
- `reveal.dfy` (module `Reveal`): the in-place passes over the tile grid: the cascade, the
  game-over sweep, the victory sweep, the closed-tile count and the victory check.
- `game.dfy` (module `Game`): the component as a class `Game` holding its state.
  - Methods: the reset, the click handler and the timer step.
  - `Valid()` is the invariant every step keeps:
    - once a board has been dealt, the field is well formed, has the configured size and holds exactly `bombs` mines; before that both grids are empty;
    - every tile agrees with its cell;
    - no end-of-game tile shows while the game runs;
    - with question marks off, no tile is doubted;
    - in `ready`, every tile is idle and every counter is 0.
- `display.dfy` (module `Display`): the counter as pure functions, with lemmas about the
  digits and segments it shows.

Each handler is one atomic step from the state it was called in to the next state. The
results of `onVictory` and `onGameover` are built from that starting state, as the
component's closures are. So the click counters in them are the ones before the click.
The two callbacks become the list of events a click returns, in the order the component
calls them.

## Model

| member | source | states |
|---|---|---|
| Tiles.Revealed | src/components/Minesweeper/index.tsx:303-312 | an opened cell with 0..8 mines around shows an open tile that agrees with its count: `clear` exactly for 0, and its digit for 1..8 |
| Tiles.AfterBombSweep | src/components/Minesweeper/index.tsx:261-268 | the game-over sweep only turns an idle mine into `bomb` and a flag on a cell without a mine into `wrong-flag`; afterwards no mine is idle and no safe cell is flagged |
| Tiles.AfterFlagSweep | src/components/Minesweeper/index.tsx:284-287 | the victory sweep only flags idle or doubted mines; afterwards no mine is idle or doubted |
| Tiles.DoubtCycleLosesAFlag | src/components/Minesweeper/index.tsx:184-223 | with question marks on, idle → flag → doubt → idle takes three clicks and leaves the flag counter one lower |
| Tiles.PlainCycleKeepsFlags | src/components/Minesweeper/index.tsx:184-210 | with question marks off, idle → flag → idle leaves the flag counter where it was |
| Tiles.FlagCycleDelta | src/components/Minesweeper/index.tsx:184-223 | every accepted right click moves the counter by exactly one, up exactly when a flag is placed; a doubt is reached only from a flag with question marks on |
| Tiles.FlagCycle | src/components/Minesweeper/index.tsx:184-223 | a right click acts exactly on the closed tiles (idle, flag, doubt), always changes the tile it acts on, and leaves it closed |
| Tiles.FlagSweepKeepsClosed | src/components/Minesweeper/index.tsx:284-287 | the victory sweep keeps closed tiles closed and open tiles open |
| Tiles.SweepsKeepAgreement | src/components/Minesweeper/index.tsx:254-294 | neither sweep makes a tile show something untrue of its cell |
| Board.NewGrids | src/components/Minesweeper/index.tsx:60-74 | fresh rows × columns grids, every field cell 0 and every tile idle |
| Board.DrawEmptyCell | src/components/Minesweeper/index.tsx:83-88 | the do-while stops on the first draw that lands on an empty cell, having rejected every draw before it, or runs out of draws |
| Board.PlaceBombs | src/components/Minesweeper/index.tsx:77-92 | placement succeeds exactly when the draws hold at least `bombs` distinct cells; the mines are then the distinct cells of the draws used, exactly `bombs` of them, and every other cell is still 0 |
| Board.CountNearBombs | src/components/Minesweeper/index.tsx:234-251 | the result is the number of in-bounds neighbours holding a mine |
| Board.AdjacentMinesOfField | src/components/Minesweeper/index.tsx:240-247 | the neighbour count is the sum over the eight offsets of "in the grid and a mine" |
| Board.NumberRow | src/components/Minesweeper/index.tsx:97-103 | each 0-cell of a row gets its neighbour count; mines and every other row are unchanged |
| Board.NumberTiles | src/components/Minesweeper/index.tsx:95-104 | afterwards every cell is a mine or its neighbour count, and the mines are the ones placed |
| Board.BoardValues | src/components/Minesweeper/index.tsx:95-104 | every cell of a dealt field is 10 or in 0..8 |
| Board.ZeroHasNoMineAround | src/components/Minesweeper/index.tsx:99-101 | a cell numbered 0 has no mine among its in-bounds neighbours |
| Board.BoardSafeToCascade | src/components/Minesweeper/index.tsx:95-104 | in a dealt field no neighbour of a 0-cell is a mine, which is what lets the cascade never open a mine |
| Reveal.OpenNearTiles | src/components/Minesweeper/index.tsx:297-328 | the cascade only changes idle tiles, each to what its cell holds, so it never opens a mine or touches a flag or doubt; an out-of-range or non-idle start, or one that is not a 0-cell, changes no other cell; the cells it clears are listed in the order cleared, the first being the start and each later one a neighbour of an earlier one; each cleared cell ends with no idle neighbour; every other changed cell is next to a cleared cell; it terminates because each clearing step removes an idle tile |
| Reveal.ChangesNearStep | src/components/Minesweeper/index.tsx:312-322 | opening the k-th neighbour of a cleared cell keeps two facts the cascade keeps: only idle tiles change, and every change sits next to a cleared cell |
| Reveal.ClearChainStep | src/components/Minesweeper/index.tsx:312-322 | the cells cleared by opening the k-th neighbour of a cleared cell, listed after those cleared before, still form one chain from the start: every cleared cell is listed, and each after the first is a neighbour of an earlier one |
| Reveal.SpreadStep | src/components/Minesweeper/index.tsx:312-322 | one neighbour step of the cascade keeps all of the above, keeps every cleared cell other than the start with no idle neighbour, and settles one more neighbour of the start |
| Reveal.SweepKeepsChangesNear | src/components/Minesweeper/index.tsx:277-294 | a sweep after the cascade that changes only mine cells, and no clear tile, keeps every other change next to a cell the cascade cleared |
| Reveal.SweepKeepsCascade | src/components/Minesweeper/index.tsx:277-294 | a sweep after the cascade that only turns mines into flags keeps the cascade's chain of cleared cells, keeps each of them with no idle neighbour, and keeps every other change outside the mines next to a cleared cell |
| Reveal.CascadeStopsAtWall | src/components/Minesweeper/index.tsx:297-328 | a cascade clears no cell of a region that does not hold its start and whose every neighbour is inside it or was not cleared: it cannot jump over a ring of numbered cells |
| Reveal.RowCascadeStopsAtNumber | src/components/Minesweeper/index.tsx:297-328 | on a one-row board of six cells, a cascade from the first cell that does not clear the fourth clears neither the fifth nor the sixth |
| Reveal.OpenClicked | src/components/Minesweeper/index.tsx:145-157 | the idle clicked cell shows its digit, or is cleared and cascades; only idle tiles change, each to what its cell holds; the cleared cells form one chain of neighbours from the clicked cell, each ending with no idle neighbour, and every other changed cell is next to one of them |
| Reveal.ShowAllBombs | src/components/Minesweeper/index.tsx:254-274 | every tile becomes its game-over sweep |
| Reveal.ShowAllFlags | src/components/Minesweeper/index.tsx:277-294 | every tile becomes its victory sweep |
| Reveal.CountClosedTiles | src/components/Minesweeper/index.tsx:334-343 | the count is the number of idle, flag and doubt tiles |
| Reveal.CheckVictory | src/components/Minesweeper/index.tsx:331-360 | victory exactly when the closed tiles number `bombs`; then every tile becomes its victory sweep, otherwise nothing changes; the closed tiles stay the same and no cell gets an idle neighbour |
| Reveal.VictoryMeansAllSafeOpen | src/components/Minesweeper/index.tsx:346 | while every mine is closed, the closed tiles number the mines exactly when every cell without a mine is open |
| Game.PlayStepKeepsTrue | src/components/Minesweeper/index.tsx:137-224 | opening an idle cell to its value, or marking a closed one, keeps the tile true to its cell, adds no end-of-game tile, and adds no doubt when question marks are off |
| Game.IdleTilesAreTrue | src/components/Minesweeper/index.tsx:72 | all-idle tiles agree with any field |
| Game.Deal | src/components/Minesweeper/index.tsx:60-104 | on enough distinct draws, a well-formed field of the right size whose mines are the first distinct draws, exactly `bombs` of them, and all-idle tiles; otherwise it reports failure |
| Game.OpenSafe | src/components/Minesweeper/index.tsx:143-176 | the tiles of a left click on a safe idle cell, as the cell's digit or cascade followed by the victory check; the cleared cells form one chain of neighbours from the clicked cell, each ending with no idle neighbour, every other changed cell without a mine is next to one of them, and only mines change in the victory sweep; the game is won exactly when every cell without a mine is open |
| Game.Explode | src/components/Minesweeper/index.tsx:160-176 | the clicked mine explodes, every other tile is swept for game over, then the victory check runs; tiles stay true to their cells |
| Game.Game.constructor | src/components/Minesweeper/index.tsx:44-53 | the hooks' initial values: empty grids, `ready`, every counter 0 |
| Game.Game.Reset | src/components/Minesweeper/index.tsx:57-116 | on enough distinct draws: a new board of the configured size with exactly `bombs` mines on the first distinct draws, every tile idle, `ready`, and the timer, flags and both click counters 0; otherwise nothing changes |
| Game.Game.GameResults | src/components/Minesweeper/index.tsx:363-400 | the results record built from the current state; `HandleTileClick` states what every record a click returns carries |
| Game.Game.Install | src/components/Minesweeper/index.tsx:106-115 | the state after a reset: the new grids, `ready` and every counter 0, and the invariant holds |
| Game.Game.Tick | src/components/Minesweeper/index.tsx:404-411 | the timer advances by one exactly while playing; nothing else changes |
| Game.Game.HandleTileClick | src/components/Minesweeper/index.tsx:120-231 | once complete or over, a click changes nothing; otherwise see LeftClick and RightClick; a left click on a safe idle cell completes the game exactly when every cell without a mine is open; every results record carries the right points (100 on victory, 0 on game over), the tile count rows × columns, the mine count, the timer and the click counts before the click |
| Game.Game.LeftClick | src/components/Minesweeper/index.tsx:137-177 | a left click on a tile that is not idle changes nothing; otherwise it is counted, and the stage becomes `complete` exactly when the closed tiles number `bombs`, else `gameover` on a mine and `playing` otherwise |
| Game.Game.SafeClick | src/components/Minesweeper/index.tsx:143-176 | on a safe idle cell: counted; the cell shows its digit or cascades, with no mine opened, no flag or doubt touched, the cleared cells one chain of neighbours from the clicked cell, and every other opened cell next to one of them; on victory the mines get flags, `onVictory` fires with 100 points and the stage is `complete`, otherwise `playing` |
| Game.Game.MineClick | src/components/Minesweeper/index.tsx:160-176 | on an idle mine: counted; the mine explodes and the other tiles are swept; `onGameover` fires with 0 points, and if the victory check then passes, `onVictory` fires too and the stage is `complete`, otherwise `gameover` |
| Game.Game.RightClick | src/components/Minesweeper/index.tsx:181-230 | a closed tile takes its next step in the marking cycle, the flag counter moves by that step, the right click is counted and the stage is `playing`; any other tile ignores the click and nothing changes |
| Display.Clamp | src/components/Minesweeper/Display/index.tsx:12 | values above 999 become 999; every value up to 999, negatives included, is kept |
| Display.NatToString | src/components/Minesweeper/Display/index.tsx:15 | the decimal digits of a natural number, at least one, with no leading zero |
| Display.IntToString | src/components/Minesweeper/Display/index.tsx:15 | `String` of an integer starts with '-' exactly when the integer is negative, has at least one decimal digit after it and digits everywhere else, and has no leading zero unless it is "0" |
| Display.IntToStringValue | src/components/Minesweeper/Display/index.tsx:15 | the digits of `String(value)` denote the value, or its magnitude after the sign of a negative one |
| Display.Digits | src/components/Minesweeper/Display/index.tsx:12-15 | the counter shows at least three characters, and a '-' among them exactly when the value is negative |
| Display.PadStart | src/components/Minesweeper/Display/index.tsx:15 | padStart puts fillers, and only fillers, in front until the length is reached; a long enough string is kept |
| Display.NatToStringValue | src/components/Minesweeper/Display/index.tsx:15 | the decimal digits of n denote n |
| Display.ShowsValueInRange | src/components/Minesweeper/Display/index.tsx:15 | a value in 0..999 shows as exactly three decimal digits, zero-padded on the left, that denote the value |
| Display.ShowsMaxAbove | src/components/Minesweeper/Display/index.tsx:12-15 | a value above 999 shows as "999" |
| Display.NegativeShowsDarkSign | src/components/Minesweeper/Display/index.tsx:12-39 | a negative value shows a '-' character whose cell is dark |
| Display.SmallNegativeExample | src/components/Minesweeper/Display/index.tsx:15 | -5 shows as "0-5": the padding goes in front of the sign |
| Display.Show | src/components/Minesweeper/Display/index.tsx:26-39 | one segment cell per character the counter shows, in order, each lit as that character is |
| Display.ShowsDecimalDigits | src/components/Minesweeper/Display/index.tsx:12-39 | a value in 0..999 lights, from left to right, the segments of its hundreds, tens and units digit |
| Display.ShowIsReadable | src/components/Minesweeper/Display/index.tsx:12-39 | two values in 0..999 that light the same segments are the same value, so the counter can be read back |
| Display.EightLightsAll | src/components/Minesweeper/Display/index.tsx:29-39 | '8' lights all seven segments |
| Display.OneLightsRightSide | src/components/Minesweeper/Display/index.tsx:29-39 | '1' lights exactly the two right-hand segments |
| Display.ZeroLightsAllButMiddle | src/components/Minesweeper/Display/index.tsx:29-39 | '0' lights every segment except the middle one |
| Display.SegmentsOf | src/components/Minesweeper/Display/index.tsx:29-39 | each segment is lit exactly when its list holds the character; a character lights something exactly when it is a digit |
| Display.DigitsAreDistinguishable | src/components/Minesweeper/Display/index.tsx:29-39 | no two digits light the same segments |

## Left out

- Rendering: all JSX and Chakra markup, the tile and play-button components, the theme and the app shell with its difficulty presets.
- Randomness: `Math.random` (index.tsx 85-86) is replaced by a caller-supplied sequence of coordinates already in range. When the draws hold fewer distinct cells than `bombs`, the component's placement loop never ends, or, on a grid with no rows, throws on its first draw (index.tsx 88). That includes `bombs` above rows × columns. The model then reports failure and changes nothing, because in either case the component sets no state.
- React scheduling: the `useState` and `useEffect` machinery, and the rerun of the reset when the props change (index.tsx 415). A change of props is a new `Game`, and a reset is an explicit call.
- `onVictory` and `onGameover` are not called. Each click returns them as events carrying the results records.
- The timer's `setTimeout` (index.tsx 404-411) is one `Tick` step per elapsed second.
- The flag counter is not tied to the number of flags on the board. The two are not equal in the component: leaving a doubt decrements the counter (index.tsx 219, `Tiles.DoubtCycleLosesAFlag`), and the victory sweep adds flags without moving it.
- Game.Game.LeftClick: the component tests the number, clear and mine cases one after another (index.tsx 146-173). Only one can apply, since the field value decides, so the model dispatches to `SafeClick` or `MineClick`.
- The victory check also runs after a mine is hit (index.tsx 176). It can fire `onVictory` after `onGameover` and end the game `complete`. The model keeps this behaviour as written.
- Display.Show: `String(value)` is modelled for integer values only. Every value the component passes is an integer. A value of -100 or below shows four or more characters, because `padStart` does not truncate.
