// The engine of src/game.js: reset, open (lazy mine placement and flood), mark, revealAll.

module Engine {
  import opened Geometry
  import opened Board
  import opened Reveal
  import opened Placement

  /** `resetGame`: every cell closed over a grid of zeros, no mine placed yet, both counters
      at their starting values and no timestamps. */
  function Reset(rows: nat, cols: nat, mines: nat): (g: Game)
    ensures Shaped(g) && g.rows == rows && g.cols == cols && g.mines == mines
    ensures forall i, j :: InGrid(i, j, rows, cols) ==> g.field[i][j] == Closed && g.values[i][j] == Num(0)
    ensures g.started.None? && g.stopped.None? && g.won.None?
    ensures g.minesLeft == mines && g.cellsLeft == rows * cols - mines
  {
    Game(rows, cols, mines, None, None, mines, rows * cols - mines,
         CreateValues(rows, cols), ClosedField(rows, cols), None)
  }

  /** `resetGame` with its argument left out plays DEFAULT_GAME_OPTIONS. */
  function ResetWith(opts: Option<Options>): (g: Game)
    ensures opts.Some? ==> g == Reset(opts.value.rows, opts.value.cols, opts.value.mines)
    ensures opts.None? ==> g == Reset(DefaultRows, DefaultCols, DefaultMines)
    ensures opts.None? ==> g.rows == 10 && g.cols == 10 && g.mines == 10
    ensures opts.None? ==> g.minesLeft == 10 && g.cellsLeft == 90 && g.started.None?
  {
    var o := OptionsOf(opts);
    Reset(o.rows, o.cols, o.mines)
  }

  /** The hidden grid the first open builds: fresh zeros, then placement excluding the
      clicked row and the clicked column. */
  function FirstValues(g: Game, row: int, col: int, cands: seq<Pos>): seq<seq<Value>>
    requires AllInGrid(cands, g.rows, g.cols)
  {
    Place(CreateValues(g.rows, g.cols), g.rows, g.cols, g.mines, Some((row, col)), cands).0
  }

  /** The candidates let the placement loop write all the mines (the source loops until it
      has, so it returns only in this case). */
  predicate PlacementFinishes(g: Game, row: int, col: int, cands: seq<Pos>)
    requires AllInGrid(cands, g.rows, g.cols)
  {
    Place(CreateValues(g.rows, g.cols), g.rows, g.cols, g.mines, Some((row, col)), cands).1 == 0
  }

  /** What `openCell` needs of its arguments. */
  predicate CanOpen(g: Game, row: int, col: int, cands: seq<Pos>) {
    Shaped(g) && InGrid(row, col, g.rows, g.cols) && AllInGrid(cands, g.rows, g.cols)
    && (g.stopped.None? && g.started.None? ==> PlacementFinishes(g, row, col, cands))
  }

  /** `openCell`. Ignored once the game is stopped or on a cell that is not closed/question.
      On the first open the mines are placed. The cell shows its value and `cellsLeft` drops
      by one; a 0 opens every neighbour in `around` order, a mine loses the game, and any other
      value that brings `cellsLeft` to 0 wins it. */
  function Open(g: Game, row: int, col: int, now: int, cands: seq<Pos>): (r: Game)
    requires CanOpen(g, row, col, cands)
    ensures Shaped(r) && r.rows == g.rows && r.cols == g.cols
    ensures Where(r.field, Openable) <= Where(g.field, Openable)
    ensures g.started.Some? ==> r.started == g.started
    decreases |Where(g.field, Openable)|, 1, 0
  {
    if g.stopped.Some? then g
    else
      var values := if g.started.None? then FirstValues(g, row, col, cands) else g.values;
      var cell := g.field[row][col];
      if cell != Closed && cell != Question then g
      else
        var value := values[row][col];
        var next := Revealed(g, row, col, values, now);
        RevealOne(g.field, row, col, value);
        if value == Num(0) then
          NeighboursExact(row, col, g.rows, g.cols);
          OpenAll(next, Neighbours(row, col, g.rows, g.cols), now)
        else if value == Mine then
          next.(won := Some(false), stopped := Some(now))
        else if next.cellsLeft == 0 then
          next.(won := Some(true), stopped := Some(now))
        else
          next
  }

  /** The `around` callback loop of the flood: opens each of `ps` in turn on the state the
      previous open produced. The game has started, so no candidates are drawn. */
  function OpenAll(g: Game, ps: seq<Pos>, now: int): (r: Game)
    requires Shaped(g) && g.started.Some? && AllInGrid(ps, g.rows, g.cols)
    ensures Shaped(r) && r.rows == g.rows && r.cols == g.cols
    ensures Where(r.field, Openable) <= Where(g.field, Openable)
    ensures r.started == g.started
    decreases |Where(g.field, Openable)| + 1, 0, |ps|
  {
    if ps == [] then g
    else
      var h := Open(g, ps[0].0, ps[0].1, now, []);
      SubsetCard(Where(h.field, Openable), Where(g.field, Openable));
      OpenAll(h, ps[1..], now)
  }

  /** `markCell`: ignored once the game is stopped, otherwise the shared cycle and counter
      update. */
  function MarkCell(g: Game, row: int, col: int): (r: Game)
    requires Shaped(g) && InGrid(row, col, g.rows, g.cols)
    ensures g.stopped.Some? ==> r == g
    ensures g.stopped.None? ==> r == MarkAt(g, row, col)
  {
    if g.stopped.Some? then g else MarkAt(g, row, col)
  }

  // ---------------------------------------------------------------------------------------
  // What one open does

  /** Open is a no-op on a stopped game and on a cell that is neither closed nor question
      (so flags are click-protected). */
  lemma OpenIgnored(g: Game, row: int, col: int, now: int, cands: seq<Pos>)
    requires CanOpen(g, row, col, cands)
    requires g.stopped.Some? || g.field[row][col] !in Openable
    ensures Open(g, row, col, now, cands) == g
  {
  }

  /** A win the step from g to r declared came with `cellsLeft` at exactly 0: the engine stops
      at the first outcome, so nothing is counted down after it. */
  predicate WonCleared(g: Game, r: Game) {
    (r.won != g.won || r.stopped != g.stopped) && r.won == Some(true) ==> r.cellsLeft == 0
  }

  /** What an open and the flood under it do, as a relation between the states before and
      after: cells only go from closed/question to their value, `cellsLeft` drops once per
      cell opened, every opened 0 has its neighbourhood opened unless the game stopped on
      the way, a started game keeps its hidden grid, and a stopped game is left alone. */
  lemma {:induction false} OpenSteps(g: Game, row: int, col: int, now: int, cands: seq<Pos>)
    requires CanOpen(g, row, col, cands)
    ensures var r := Open(g, row, col, now, cands);
      RevealStep(g, r) && (r.stopped.Some? || Flooded(g, r))
      && (g.started.Some? ==> r.values == g.values)
      && (g.stopped.Some? ==> r == g)
      && (g.stopped.None? ==> r.field[row][col] !in Openable)
      && (Settled(g) ==> Settled(r))
      && Reached(g, r, {(row, col)})
    decreases |Where(g.field, Openable)|, 1, 1
  {
    var r := Open(g, row, col, now, cands);
    if g.stopped.Some? || g.field[row][col] !in Openable {
      RevealStepRefl(g);
    } else {
      var values := if g.started.None? then FirstValues(g, row, col, cands) else g.values;
      var next := Revealed(g, row, col, values, now);
      if values[row][col] == Num(0) {
        NeighboursExact(row, col, g.rows, g.cols);
        FloodSteps(g, next, row, col, now);
        assert r == OpenAll(next, Neighbours(row, col, g.rows, g.cols), now);
      } else {
        assert r.field == next.field && r.values == next.values;
        ReachedOne(g, r, row, col);
      }
    }
  }

  /** The zero case of OpenSteps: the flood from a freshly revealed 0 at (row, col). */
  lemma {:induction false} FloodSteps(g: Game, next: Game, row: int, col: int, now: int)
    requires Shaped(g) && g.stopped.None? && InGrid(row, col, g.rows, g.cols)
    requires g.field[row][col] in Openable && IsGrid(next.values, g.rows, g.cols)
    requires next == Revealed(g, row, col, next.values, now) && next.values[row][col] == Num(0)
    requires AllInGrid(Neighbours(row, col, g.rows, g.cols), g.rows, g.cols)
    ensures var r := OpenAll(next, Neighbours(row, col, g.rows, g.cols), now);
      RevealStep(g, r) && (r.stopped.Some? || Flooded(g, r))
      && r.values == next.values
      && r.field[row][col] !in Openable
      && (Settled(g) ==> Settled(r))
      && Reached(g, r, {(row, col)})
    decreases |Where(g.field, Openable)|, 1, 0
  {
    var ns := Neighbours(row, col, g.rows, g.cols);
    NeighboursExact(row, col, g.rows, g.cols);
    RevealOne(g.field, row, col, Num(0));
    var r := OpenAll(next, ns, now);
    OpenAllSteps(next, ns, now);
    assert next.field[row][col] == Shown(Num(0)) && next.values == r.values;
    ZeroLevel(g, next, r, row, col, ns);
  }

  lemma {:induction false} OpenAllSteps(g: Game, ps: seq<Pos>, now: int)
    requires Shaped(g) && g.started.Some? && AllInGrid(ps, g.rows, g.cols)
    ensures var r := OpenAll(g, ps, now);
      RevealStep(g, r) && (r.stopped.Some? || Flooded(g, r))
      && r.values == g.values
      && (g.stopped.Some? ==> r == g)
      && (r.stopped.Some? || forall k :: 0 <= k < |ps| ==> r.field[ps[k].0][ps[k].1] !in Openable)
      && (Settled(g) ==> Settled(r))
      && Reached(g, r, set p | p in ps)
    decreases |Where(g.field, Openable)| + 1, 0, |ps|
  {
    var r := OpenAll(g, ps, now);
    if ps == [] {
      RevealStepRefl(g);
    } else {
      var h := Open(g, ps[0].0, ps[0].1, now, []);
      SubsetCard(Where(h.field, Openable), Where(g.field, Openable));
      OpenSteps(g, ps[0].0, ps[0].1, now, []);
      OpenAllSteps(h, ps[1..], now);
      assert r == OpenAll(h, ps[1..], now);
      ReachedCons(g, h, r, ps);
      if r.stopped.None? {
        assert h.stopped.None?;
        forall k | 0 <= k < |ps| ensures r.field[ps[k].0][ps[k].1] !in Openable {
          if k > 0 {
            assert ps[k] == ps[1..][k - 1];
          } else if g.stopped.Some? {
            assert false;
          }
        }
      }
    }
  }

  /** The outcome of opening a closed or question cell of a running game: it shows its value,
      a first open places the mines and starts the clock, a mine loses, and a non-zero value
      wins exactly when it was the last cell to open; otherwise won and stopped stay. */
  lemma OpenOutcome(g: Game, row: int, col: int, now: int, cands: seq<Pos>)
    requires CanOpen(g, row, col, cands) && g.stopped.None? && g.field[row][col] in Openable
    ensures var r := Open(g, row, col, now, cands);
      var v := r.values[row][col];
      r.field[row][col] == Shown(v)
      && r.values == (if g.started.None? then FirstValues(g, row, col, cands) else g.values)
      && r.started == (if g.started.Some? then g.started else Some(now))
      && (v == Mine ==> r.won == Some(false) && r.stopped == Some(now))
      && (v.Num? && v.n > 0 && g.cellsLeft == 1 ==> r.won == Some(true) && r.stopped == Some(now))
      && (v.Num? && v.n > 0 && g.cellsLeft != 1 ==> r.won == g.won && r.stopped == g.stopped)
      && (v != Num(0) ==> r.field == g.field[row := g.field[row][col := Shown(v)]]
                          && r.cellsLeft == g.cellsLeft - 1)
  {
    var values := if g.started.None? then FirstValues(g, row, col, cands) else g.values;
    var next := Revealed(g, row, col, values, now);
    if values[row][col] == Num(0) {
      NeighboursExact(row, col, g.rows, g.cols);
      FloodSteps(g, next, row, col, now);
    }
  }

  /** The first click is safe: the first open of a game places exactly `mines` mines, none in
      the clicked row or column (so none under the click), none touching another, and every
      number counts its adjacent mines. */
  lemma FirstOpenSafe(g: Game, row: int, col: int, now: int, cands: seq<Pos>)
    requires CanOpen(g, row, col, cands) && g.stopped.None? && g.started.None?
    requires g.field[row][col] in Openable
    ensures var r := Open(g, row, col, now, cands);
      r.values[row][col] != Mine
      && |MineSet(r.values, r.rows, r.cols)| == g.mines
      && Consistent(r.values, r.rows, r.cols) && NoAdjacentMines(r.values, r.rows, r.cols)
      && ClearLines(r.values, r.rows, r.cols, row, col)
  {
    OpenOutcome(g, row, col, now, cands);
    FreshPlacement(g.rows, g.cols, g.mines, Some((row, col)), cands);
  }

  // ---------------------------------------------------------------------------------------
  // The win check runs only for non-zero values

  /** How an open ends: if it changes `won` or `stopped`, it stopped the game at `now` and
      either lost it on a mine it opened or won it on a number it opened with `cellsLeft` at
      exactly 0 (the branches at src/game.js:63-69, at whatever depth of the flood). */
  lemma {:induction false} OpenEnds(g: Game, row: int, col: int, now: int, cands: seq<Pos>)
    requires CanOpen(g, row, col, cands)
    ensures var r := Open(g, row, col, now, cands);
      RevealStep(g, r) && Decided(g, r, now) && WonCleared(g, r)
    decreases |Where(g.field, Openable)|, 1, 1
  {
    var r := Open(g, row, col, now, cands);
    OpenSteps(g, row, col, now, cands);
    if g.stopped.None? && g.field[row][col] in Openable {
      var values := if g.started.None? then FirstValues(g, row, col, cands) else g.values;
      var next := Revealed(g, row, col, values, now);
      RevealOne(g.field, row, col, values[row][col]);
      if values[row][col] == Num(0) {
        NeighboursExact(row, col, g.rows, g.cols);
        FloodEnds(g, next, row, col, now);
        assert r == OpenAll(next, Neighbours(row, col, g.rows, g.cols), now);
      } else {
        assert r.field == next.field && r.values == next.values;
        if values[row][col] == Mine {
          assert OpenedMine(g, r, row, col);
        } else {
          assert OpenedNumber(g, r, row, col);
        }
      }
    }
  }

  /** The zero case of OpenEnds: the flood from a freshly revealed 0 at (row, col). */
  lemma {:induction false} FloodEnds(g: Game, next: Game, row: int, col: int, now: int)
    requires Shaped(g) && g.stopped.None? && InGrid(row, col, g.rows, g.cols)
    requires g.field[row][col] in Openable && IsGrid(next.values, g.rows, g.cols)
    requires next == Revealed(g, row, col, next.values, now) && next.values[row][col] == Num(0)
    requires AllInGrid(Neighbours(row, col, g.rows, g.cols), g.rows, g.cols)
    ensures var r := OpenAll(next, Neighbours(row, col, g.rows, g.cols), now);
      RevealStep(g, r) && Decided(g, r, now) && WonCleared(g, r)
    decreases |Where(g.field, Openable)|, 1, 0
  {
    var ns := Neighbours(row, col, g.rows, g.cols);
    RevealOne(g.field, row, col, Num(0));
    var r := OpenAll(next, ns, now);
    OpenAllSteps(next, ns, now);
    OpenAllEnds(next, ns, now);
    DecidedTrans(g, next, r, now);
  }

  lemma {:induction false} OpenAllEnds(g: Game, ps: seq<Pos>, now: int)
    requires Shaped(g) && g.started.Some? && AllInGrid(ps, g.rows, g.cols)
    ensures var r := OpenAll(g, ps, now);
      RevealStep(g, r) && Decided(g, r, now) && WonCleared(g, r)
    decreases |Where(g.field, Openable)| + 1, 0, |ps|
  {
    var r := OpenAll(g, ps, now);
    OpenAllSteps(g, ps, now);
    if ps != [] {
      var h := Open(g, ps[0].0, ps[0].1, now, []);
      SubsetCard(Where(h.field, Openable), Where(g.field, Openable));
      OpenSteps(g, ps[0].0, ps[0].1, now, []);
      OpenEnds(g, ps[0].0, ps[0].1, now, []);
      OpenAllSteps(h, ps[1..], now);
      OpenAllEnds(h, ps[1..], now);
      assert r == OpenAll(h, ps[1..], now);
      DecidedTrans(g, h, r, now);
    }
  }

  /** An open that reveals nothing but zeros leaves `won` and `stopped` alone, whatever mines
      the board holds and even when it brings `cellsLeft` to 0: only the branch of a non-zero
      value tests `cellsLeft`. */
  lemma ZeroFloodNeverSettles(g: Game, row: int, col: int, now: int, cands: seq<Pos>)
    requires CanOpen(g, row, col, cands)
    ensures var r := Open(g, row, col, now, cands);
      RevealStep(g, r) && (ZerosOpened(g, r) ==> r.won == g.won && r.stopped == g.stopped)
  {
    var r := Open(g, row, col, now, cands);
    OpenEnds(g, row, col, now, cands);
    if ZerosOpened(g, r) {
      ZerosOpenedUndecided(g, r, now);
    }
  }

  lemma ZeroFloodAllNeverSettles(g: Game, ps: seq<Pos>, now: int)
    requires Shaped(g) && g.started.Some? && AllInGrid(ps, g.rows, g.cols)
    ensures var r := OpenAll(g, ps, now);
      RevealStep(g, r) && (ZerosOpened(g, r) ==> r.won == g.won && r.stopped == g.stopped)
  {
    var r := OpenAll(g, ps, now);
    OpenAllEnds(g, ps, now);
    if ZerosOpened(g, r) {
      ZerosOpenedUndecided(g, r, now);
    }
  }

  /** A board without mines is never won, whatever cell is opened first. */
  lemma EmptyBoardNeverWon(rows: nat, cols: nat, row: int, col: int, now: int)
    requires InGrid(row, col, rows, cols)
    ensures CanOpen(Reset(rows, cols, 0), row, col, [])
    ensures Open(Reset(rows, cols, 0), row, col, now, []).won.None?
  {
    var g := Reset(rows, cols, 0);
    var r := Open(g, row, col, now, []);
    assert FirstValues(g, row, col, []) == CreateValues(rows, cols);
    OpenOutcome(g, row, col, now, []);
    ZeroFloodNeverSettles(g, row, col, now, []);
  }

  /** On a 1 x 1 board without mines the first open reveals the only cell and leaves
      `cellsLeft` at 0, yet the game is neither won nor stopped. */
  lemma ClearedButNotWon(now: int)
    ensures var r := Open(Reset(1, 1, 0), 0, 0, now, []);
      r.cellsLeft == 0 && r.won.None? && r.stopped.None? && r.field[0][0] == Shown(Num(0))
  {
    var g := Reset(1, 1, 0);
    var z := CreateValues(1, 1);
    assert FirstValues(g, 0, 0, []) == z;
    assert Neighbours(0, 0, 1, 1) == [];
    assert Open(g, 0, 0, now, []) == Revealed(g, 0, 0, z, now);
  }

  // ---------------------------------------------------------------------------------------
  // The invariant of a game in play

  /** Shape, both counters, truthful revealed cells, right neighbour counts with no touching
      mines, won set together with stopped, nothing revealed before the first open, and
      exactly `mines` mines once placed. */
  ghost predicate Playing(g: Game) {
    Shaped(g) && Counters(g) && Agree(g) && Settled(g)
    && Consistent(g.values, g.rows, g.cols) && NoAdjacentMines(g.values, g.rows, g.cols)
    && (g.started.None? ==> NothingShown(g))
    && (g.started.Some? ==> |MineSet(g.values, g.rows, g.cols)| == g.mines)
  }

  lemma ResetPlaying(rows: nat, cols: nat, mines: nat)
    ensures Playing(Reset(rows, cols, mines))
  {
    AllCellsCount(rows, cols);
    ZerosConsistent(rows, cols);
  }

  lemma OpenPlaying(g: Game, row: int, col: int, now: int, cands: seq<Pos>)
    requires CanOpen(g, row, col, cands) && Playing(g)
    ensures Playing(Open(g, row, col, now, cands))
  {
    var r := Open(g, row, col, now, cands);
    OpenSteps(g, row, col, now, cands);
    RevealStepCounters(g, r);
    RevealStepAgree(g, r);
    if g.stopped.None? && g.started.None? && g.field[row][col] in Openable {
      FirstOpenSafe(g, row, col, now, cands);
      OpenOutcome(g, row, col, now, cands);
    }
  }

  lemma MarkPlaying(g: Game, row: int, col: int)
    requires Shaped(g) && InGrid(row, col, g.rows, g.cols) && Playing(g)
    ensures Playing(MarkCell(g, row, col))
  {
    if g.stopped.None? {
      MarkAtCounters(g, row, col);
    }
  }

  /** Marking cycles with period three: three marks on an unrevealed cell of a running game
      restore the state. */
  lemma MarkThrice(g: Game, row: int, col: int)
    requires Shaped(g) && InGrid(row, col, g.rows, g.cols)
    requires g.stopped.None? && g.field[row][col] in Unrevealed
    ensures MarkCell(MarkCell(MarkCell(g, row, col), row, col), row, col) == g
  {
    MarkAtThrice(g, row, col);
  }

  /** Flagging a fresh cell twice leaves it a question and the mine counter where it was. */
  lemma MarkTwiceFromReset(rows: nat, cols: nat, mines: nat, row: int, col: int)
    requires InGrid(row, col, rows, cols)
    ensures var r := MarkCell(MarkCell(Reset(rows, cols, mines), row, col), row, col);
      r.field[row][col] == Question && r.minesLeft == mines
  {
  }

  /** Once an open stops the game, later opens and marks change nothing. */
  lemma StoppedIsFinal(g: Game, row: int, col: int, now: int, cands: seq<Pos>, row2: int, col2: int, now2: int)
    requires CanOpen(g, row, col, cands) && InGrid(row2, col2, g.rows, g.cols)
    requires Open(g, row, col, now, cands).stopped.Some?
    ensures var r := Open(g, row, col, now, cands);
      Open(r, row2, col2, now2, []) == r && MarkCell(r, row2, col2) == r
  {
  }
}
