# Minefields engine in Dafny

A model of the Minesweeper engine of the minefields app, with proofs about it. Two copies of the
engine are modelled:

- `src/game.js` is the newer engine. `resetGame` builds a board of closed cells over a grid of
  zeros. The first `openCell` places the mines, keeping them out of the clicked row and the
  clicked column. `openCell` then reveals the cell, floods through zeros, and detects a loss
  (a mine) or a win (`_cellsLeft` reaching 0 on a non-zero cell). `markCell` cycles
  closed → flag → question → closed and keeps `minesLeft` in step. `revealAll` shows the
  whole board and marks wrong flags. A stopped game ignores opens and marks.
- `src/App.js` (lines 132-275) is the older copy and its `gameReducer`. Here `resetGame`
  places the mines at once, with nothing excluded. Its `openCell` and `markCell` have no
  `stopped` guard.

Files, one module each:

- `geometry.dfy` (`Geometry`): `around`, the nested loop over the 8-neighbourhood. It is a
  method whose result is proved equal to the spec function `Neighbours`.
- `board.dfy` (`Board`): the state. `Value` is a number or a mine. `Cell` is closed, flag,
  question, shown value or mine-wrong. `Game` holds the options, the `started`/`stopped`
  timestamps, `minesLeft`, `cellsLeft` (`_cellsLeft`), the hidden `values`, the visible
  `field` and `won`. The file also holds the default options, the mark cycle and
  `revealAll`, which both copies share (the App.js `markCell` is the game.js one without its
  guard), and `RevealStep`, the relation that says what opening cells may change.
- `reveal.dfy` (`Reveal`): how far an open reaches and how it may end the game. Every cell
  it opens ends a chain of neighbouring opened zeros that starts at the click (`Reached`).
  If it changes `won` or `stopped`, it stopped the game at `now` on a mine or a winning
  number that it opened (`Decided`).
- `placement.dfy` (`Placement`): `placeMines`. It is an in-place loop over an `array2`
  (`PlaceMines`, with `Drop` for the body of one accepted candidate), proved equal to the
  spec function `Place`. Lemmas about `Place` prove that it places the right number of
  mines, keeps the neighbour counts right and keeps mines apart. They also prove the
  row-and-column exclusion.
- `engine.dfy` (`Engine`): `src/game.js` — `Reset`, `Open`/`OpenAll` (the recursive flood,
  with `around` order kept), `MarkCell`, and the invariant `Playing` that every transition
  but `revealAll` keeps.
- `legacy.dfy` (`Legacy`): `src/App.js` — `Reset` with eager placement, the unguarded
  `Open`/`OpenAll`, the `Action` type and `Reducer`, and that copy's invariant.

Randomness and the clock are parameters. `Math.random` becomes `cands`, a sequence of
candidate coordinates that placement draws from in order. `Date.now()` becomes `now`.
`null`/`undefined` timestamps and `won` are `None`. Integers are unbounded; every counter in
the source stays far from JavaScript's 2^53 limit.

Behaviour the model keeps from the code:

- A mine is placed only on a cell whose current value is 0 (`!field[r][c]`). So no two mines
  ever touch (`Placement.PlaceConsistent`). Some option values can then never be satisfied.
- On the first open, `r !== row && c !== col` keeps the clicked cell's whole row and whole
  column free of mines (`Placement.PlaceExcludes`, `Engine.FirstOpenSafe`).
- The win test runs only in the branch of a revealed non-zero number. It is skipped for 0
  cells, so an open that reveals only zeros never wins or stops the game, even when it
  clears the board (`Engine.OpenEnds`, `Engine.ZeroFloodNeverSettles`,
  `Legacy.ZeroFloodNeverSettles`, `Engine.ClearedButNotWon`).
- Placement accepts a cell only when it holds 0, not merely when it holds no mine. The
  placement loop never ends when no allowed 0 cell is left, so open and reset require that
  the candidates let placement finish.

## Model

| member | source | states |
|---|---|---|
| Geometry.Around | src/game.js:130-146 | the cells the nested loop hands to its callback, in call order, are exactly the in-bounds cells at Chebyshev distance 1, never the centre, each once; equal to `Neighbours`; src/App.js:259-275 is the same loop |
| Geometry.NeighboursExact | src/game.js:136-143 | a cell is visited iff it is in bounds and adjacent; no cell twice; all in bounds |
| Geometry.ScanMembers | src/game.js:131-144 | after k of the nine loop steps, the cells handed over are the in-bounds neighbours whose step is below k |
| Geometry.ScanDistinct | src/game.js:131-144 | the loop never hands over a cell twice |
| Board.CreateValues | src/game.js:18-19 | `createValues` is a rows x cols grid of zeros |
| Board.OptionsOf | src/game.js:16-21 | a missing options argument means 10 rows, 10 columns, 10 mines; src/App.js:158-160 is the same default |
| Board.ClosedField | src/game.js:31 | the fresh field is rows x cols with every cell closed: the unrevealed set is the whole grid and there are no flags |
| Board.AllCellsCount | src/game.js:27 | the grid has rows*cols cells, so `_cellsLeft` starts at cells minus mines |
| Board.RevealStepWhere | src/game.js:50-55 | opening cells only removes closed/question cells from the unrevealed set and keeps every flag |
| Board.RevealStepCounters | src/game.js:50-55 | opening cells keeps `cellsLeft` = unrevealed cells - mines and `minesLeft` = mines - flags |
| Board.RevealStepAgree | src/game.js:48-51 | after opening cells, every shown cell shows its hidden value |
| Board.RevealStepTrans | src/game.js:60-62 | the changes made by successive nested opens compose into one reveal step, and their floods compose |
| Board.MarkAt | src/game.js:77-98 | the clicked cell is cycled closed→flag→question→closed; other states and cells are unchanged; only `field` and `minesLeft` change; `minesLeft` + flags is constant; the unrevealed set is unchanged; src/App.js:205-228 is the same code |
| Board.MarkAtRevealed | src/game.js:85-86 | marking a revealed or mine-wrong cell returns the same state |
| Board.MarkAtThrice | src/game.js:77-93 | three marks of an unrevealed cell restore the cell and `minesLeft` |
| Board.MarkAtCounters | src/game.js:90-98 | marking keeps both counters consistent with the field |
| Board.RevealAll | src/game.js:101-110 | a cell becomes mine-wrong iff it is a flag over a non-mine; every other cell shows its value; only `field` changes; src/App.js:230-239 is identical |
| Board.RevealAllFinal | src/game.js:101-110 | afterwards nothing is unrevealed, and cells already shown keep what they showed |
| Reveal.ReachedOne | src/game.js:50-55 | a step that changes only the clicked cell reaches only from the click |
| Reveal.ReachedTrans | src/game.js:57-62 | if every cell changed by each of two successive opens ends a chain of opened zeros from one of its seeds, the same holds for both together, from the union of the seeds |
| Reveal.ReachedCons | src/game.js:60-62 | the same for the first open of the callback loop followed by the rest of it |
| Reveal.ReachedNarrow | src/game.js:57-62 | chains that start at a neighbour of an opened 0 extend to start at that 0 |
| Reveal.ReachedFromZero | src/game.js:57-62 | a 0 opened at the click followed by the opens of its neighbours opens only cells chained to the click through opened zeros |
| Reveal.FloodedFromZero | src/game.js:57-62 | when the opened 0's neighbourhood ends open and the opens below it are flooded, every opened 0 has its neighbourhood open |
| Reveal.ZeroLevel | src/game.js:57-62 | one level of the flood: it reaches only from the click, the click ends open, and it is flooded once the click's neighbours end open |
| Reveal.DecidedTrans | src/game.js:60-69 | if each of two successive opens ends the game only by stopping at `now` on a mine or winning number it opened, so do both together |
| Placement.PutMineSet | src/game.js:117-119 | writing a mine on a non-mine adds exactly one mine |
| Placement.PlaceCount | src/game.js:113-120 | each mine the loop counts down is one new mine in the grid |
| Placement.PutMineConsistent | src/game.js:118-125 | writing a mine and incrementing the numeric neighbours keeps every number equal to its adjacent-mine count |
| Placement.PutMineApart | src/game.js:117-118 | a mine written on a 0 of a consistent grid touches no other mine |
| Placement.PlaceConsistent | src/game.js:112-128 | after any number of steps the counts are right and no two mines touch |
| Placement.PlaceExcludes | src/game.js:117 | with the first click's exclusion, no mine lands in the clicked row or column |
| Placement.ZerosConsistent | src/game.js:18-19 | the zero grid has no mines and consistent counts |
| Placement.FreshPlacement | src/game.js:40-43 | a placement on fresh zeros that finishes has exactly `mines` mines, right counts, mines apart, and with an exclusion none in the clicked row or column |
| Placement.Drop | src/game.js:118-125 | the body of one accepted candidate on the array equals `PutMine` on the old contents |
| Placement.PlaceMines | src/game.js:112-128 | the in-place loop leaves the array and the count of unplaced mines equal to `Place` on the old contents; src/App.js:241-257 is the same loop with `exclude = None` |
| Engine.Reset | src/game.js:21-34 | rows x cols, all closed over zeros, `minesLeft = mines`, `cellsLeft = rows*cols - mines`, no timestamps, no result |
| Engine.ResetWith | src/game.js:16-34 | `resetGame` with no argument is the fresh game `Engine.Reset` of DEFAULT_GAME_OPTIONS: a 10 x 10 board, all closed over zeros, 10 mines, 10 mines left, 90 cells left, no timestamps and no result; with options it is `Engine.Reset` of them |
| Board.Revealed | src/game.js:50-55 | the field is the old one with the clicked cell showing its value; `started` is kept if set and is `now` otherwise; `cellsLeft` drops by exactly one; `values` become the given grid; nothing else changes |
| Engine.Open | src/game.js:36-72 | keeps the shape, never adds a closed or question cell (the flood's termination measure), keeps a started clock |
| Engine.OpenAll | src/game.js:60-62 | the callback loop keeps the shape and the clock and never adds a closed or question cell |
| Engine.MarkCell | src/game.js:74-99 | a stopped game is returned unchanged; otherwise the result is `MarkAt` |
| Engine.OpenIgnored | src/game.js:37-46 | open returns the state unchanged when stopped or when the cell is neither closed nor question |
| Engine.OpenSteps | src/game.js:36-72 | only closed/question cells change, each to its value; `cellsLeft` drops once per opened cell; each opened 0 has all its neighbours open unless the game stopped; every changed cell ends a chain of adjacent opened zeros that starts at the clicked cell; a started game keeps its values; the clicked cell ends open; won and stopped stay paired; how the same open may change `won` and `stopped` is `Engine.OpenEnds` |
| Engine.FloodSteps | src/game.js:57-62 | the same for the flood below a freshly opened 0, including that all its neighbours end open and that every changed cell is chained to that 0 through opened zeros |
| Engine.OpenAllSteps | src/game.js:60-62 | the same for the callback loop; every changed cell is chained through opened zeros to one of the visited cells; every visited cell ends open unless the game stopped |
| Engine.OpenOutcome | src/game.js:40-69 | the cell shows its value; the first open places the mines, later opens reuse them; a mine loses at `now`; a non-zero number wins at `now` exactly when it was the last cell; otherwise won and stopped are unchanged; for a number or a mine only the clicked cell changes and `cellsLeft` drops by exactly one |
| Engine.FirstOpenSafe | src/game.js:40-43 | the first open places exactly `mines` mines, none in the clicked row or column (so not under the click), none touching, counts right |
| Engine.OpenEnds | src/game.js:57-69 | if an open, at any depth of its flood, changes `won` or `stopped`, then `stopped` is `now` and either `won` is false and a cell it opened is a mine, or `won` is true, a cell it opened is a non-zero number and `cellsLeft` is exactly 0 |
| Engine.FloodEnds | src/game.js:57-62 | the same for the flood below a freshly opened 0 |
| Engine.OpenAllEnds | src/game.js:60-62 | the same for the callback loop |
| Reveal.ZerosOpenedUndecided | src/game.js:57-69 | a step that ends the game only that way and opens only zeros changes neither `won` nor `stopped` |
| Engine.EmptyBoardNeverWon | src/game.js:57-69 | on a board without mines the first open never wins (the first open places no mine, so it opens only zeros) |
| Engine.ZeroFloodNeverSettles | src/game.js:57-69 | on any board, an open whose opened cells all hold 0 leaves `won` and `stopped` unchanged, whatever `cellsLeft` becomes |
| Engine.ZeroFloodAllNeverSettles | src/game.js:60-62 | the same for the callback loop |
| Engine.ClearedButNotWon | src/game.js:57-69 | a 1 x 1 board without mines: after the open `cellsLeft` is 0, yet there is no result and no stop |
| Engine.ResetPlaying | src/game.js:21-34 | a fresh game satisfies the invariant `Playing` |
| Engine.OpenPlaying | src/game.js:36-72 | open keeps `Playing`: shape, both counters, truthful shown cells, right counts, mines apart, exactly `mines` mines once started, won paired with stopped |
| Engine.MarkPlaying | src/game.js:74-99 | mark keeps `Playing` |
| Engine.MarkThrice | src/game.js:74-99 | three marks of an unrevealed cell of a running game restore the state |
| Engine.MarkTwiceFromReset | src/game.js:79-93 | two marks of a fresh cell leave a question mark and `minesLeft` back at `mines` |
| Engine.StoppedIsFinal | src/game.js:37-75 | once an open stops the game, later opens and marks return it unchanged |
| Legacy.Reset | src/App.js:160-174 | all closed, counters full, no timestamps; exactly `mines` mines already placed, counts right, mines apart |
| Legacy.Open | src/App.js:176-203 | keeps the shape and never changes the hidden grid; never adds a closed or question cell; keeps a started clock |
| Legacy.OpenAll | src/App.js:191-193 | the same for the callback loop |
| Legacy.Reducer | src/App.js:143-156 | reset, open, mark and revealAll go to their handlers; any other action returns the state |
| Legacy.OpenIgnored | src/App.js:177-178 | open on a cell that is neither closed nor question changes nothing, stopped or not |
| Legacy.OpenSteps | src/App.js:176-203 | only closed/question cells change, each to its value; `cellsLeft` drops once per opened cell; each opened 0 has all its neighbours open, even when the flood stopped the game on the way; every changed cell ends a chain of adjacent opened zeros that starts at the clicked cell; the clicked cell ends open; how the same open may change `won` and `stopped` is `Legacy.OpenEnds` |
| Legacy.FloodSteps | src/App.js:188-193 | the same for the flood below a freshly opened 0, whose neighbours all end open and to which every changed cell is chained through opened zeros |
| Legacy.OpenAllSteps | src/App.js:191-193 | the same for the callback loop; every changed cell is chained through opened zeros to one of the visited cells; every visited cell ends open |
| Legacy.OpenOutcome | src/App.js:176-203 | the cell shows its value; a mine loses at `now` even in a stopped game; a non-zero number wins at `now` exactly when it was the last cell; otherwise won and stopped stay; for a number or a mine only the clicked cell changes and `cellsLeft` drops by exactly one |
| Legacy.OpenEnds | src/App.js:188-200 | if an open changes `won` or `stopped`, then `stopped` is `now` and either `won` is false and a cell it opened is a mine, or `won` is true, a cell it opened is a non-zero number and `cellsLeft` is 0 or below (a loss inside the flood goes on being counted down) |
| Legacy.FloodEnds | src/App.js:188-193 | the same for the flood below a freshly opened 0 |
| Legacy.OpenAllEnds | src/App.js:191-193 | the same for the callback loop |
| Legacy.ZeroFloodNeverSettles | src/App.js:188-200 | on any board, an open whose opened cells all hold 0 leaves `won` and `stopped` unchanged, whatever `cellsLeft` becomes |
| Legacy.ZeroFloodAllNeverSettles | src/App.js:191-193 | the same for the callback loop |
| Legacy.LossThenWin | src/App.js:176-203 | on a 1 x 3 board a game lost on the mine is turned into a win by a later open |
| Legacy.ResetPlaying | src/App.js:160-174 | a fresh game satisfies the older copy's invariant |
| Legacy.OpenPlaying | src/App.js:176-203 | open keeps the invariant |
| Legacy.ReducerPlaying | src/App.js:143-156 | every action but revealAll keeps the invariant, and a reset establishes it from any state |
| Legacy.ReducerRevealsAll | src/App.js:230-239 | the revealAll action leaves nothing unrevealed and keeps shown cells |

## Left out

- The React UI (`MessageBox`, `GameTime`, the table and its click wiring, `Log`), the
  Formik/yup options form, and the `useGame` hooks (`useLogic` of `@dhmk/hooks`,
  `React.useReducer`) are not modelled. They are presentation and glue to foreign libraries.
- `Math.random` is replaced by the candidate sequence. Placement termination is not proved:
  the source loops until every mine is placed. `Engine.CanOpen` and
  `Legacy.PlacementFinishes` therefore require that the candidates let placement finish.
- `Date.now()` is one `now` per call. The source may read a later time for `stopped` than
  for `started` within one open, and a nested open of a flood that loses or wins reads the
  clock again for `stopped`. The model uses the same `now` throughout.
- A timestamp of 0 would be falsy in the source. The model treats every `Some(now)` as set,
  as `Date.now()` is never 0 in practice.
- The nested opens of the flood pass no candidates. The clock has started by then, so they
  never place mines.
- The commented-out form code at the end of src/App.js is dead code and is not modelled.

## Findings

| source | as written | input that shows it | evidently intended | confidence | as-written member | corrected member |
|---|---|---|---|---|---|---|
| src/App.js:176-203 | `openCell` has no `stopped` guard, so opening cells after a loss goes on counting `_cellsLeft` down and can set `won = true` | a 1 x 3 board with its mine at (0, 0): open (0, 0) (lost), then open (0, 1) | a stopped game ignores opens, as the guard at src/game.js:37 does | high (not executed) | Legacy.LossThenWin | Engine.StoppedIsFinal |
