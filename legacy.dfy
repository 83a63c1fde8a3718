// The older engine inside src/App.js and the reducer that dispatches to it: mines are placed
// eagerly on reset with no exclusion, and neither openCell nor markCell checks `stopped`.

module Legacy {
  import opened Geometry
  import opened Board
  import opened Reveal
  import opened Placement

  /** The actions `gameReducer` switches on; any other action type is `OtherAction`. */
  datatype Action =
    | ResetAction(payload: Option<Options>)
    | OpenAction(row: int, col: int)
    | MarkAction(row: int, col: int)
    | RevealAllAction
    | OtherAction

  /** The candidates let the eager placement write all the mines (the source loops until it has). */
  predicate PlacementFinishes(o: Options, cands: seq<Pos>) {
    AllInGrid(cands, o.rows, o.cols)
    && Place(CreateValues(o.rows, o.cols), o.rows, o.cols, o.mines, None, cands).1 == 0
  }

  /** `resetGame` of src/App.js: the mines are placed at once, on any zero cell (no cell is
      excluded), every cell is closed, the counters start full and there are no timestamps. */
  function Reset(o: Options, cands: seq<Pos>): (g: Game)
    requires PlacementFinishes(o, cands)
    ensures Shaped(g) && g.rows == o.rows && g.cols == o.cols && g.mines == o.mines
    ensures forall i, j :: InGrid(i, j, o.rows, o.cols) ==> g.field[i][j] == Closed
    ensures g.started.None? && g.stopped.None? && g.won.None?
    ensures g.minesLeft == o.mines && g.cellsLeft == o.rows * o.cols - o.mines
    ensures |MineSet(g.values, o.rows, o.cols)| == o.mines
    ensures Consistent(g.values, o.rows, o.cols) && NoAdjacentMines(g.values, o.rows, o.cols)
  {
    FreshPlacement(o.rows, o.cols, o.mines, None, cands);
    Game(o.rows, o.cols, o.mines, None, None, o.mines, o.rows * o.cols - o.mines,
         Place(CreateValues(o.rows, o.cols), o.rows, o.cols, o.mines, None, cands).0,
         ClosedField(o.rows, o.cols), None)
  }

  /** `openCell` of src/App.js: as in src/game.js, but with no `stopped` guard and no placement;
      the hidden grid never changes. */
  function Open(g: Game, row: int, col: int, now: int): (r: Game)
    requires Shaped(g) && InGrid(row, col, g.rows, g.cols)
    ensures Shaped(r) && r.rows == g.rows && r.cols == g.cols && r.values == g.values
    ensures Where(r.field, Openable) <= Where(g.field, Openable)
    ensures g.started.Some? ==> r.started == g.started
    decreases |Where(g.field, Openable)|, 1, 0
  {
    var cell := g.field[row][col];
    if cell != Closed && cell != Question then g
    else
      var value := g.values[row][col];
      var next := Revealed(g, row, col, g.values, now);
      RevealOne(g.field, row, col, value);
      if value == Num(0) then
        NeighboursExact(row, col, g.rows, g.cols);
        OpenAll(next, Neighbours(row, col, g.rows, g.cols), now)
      else if value == Mine then
        next.(won := Some(false), stopped := Some(now))
      else if next.cellsLeft == 0 then
        next.(won := Some(true), stopped := Some(now))
      else
        next
  }

  /** The flood's `around` callback loop over `ps`. */
  function OpenAll(g: Game, ps: seq<Pos>, now: int): (r: Game)
    requires Shaped(g) && AllInGrid(ps, g.rows, g.cols)
    ensures Shaped(r) && r.rows == g.rows && r.cols == g.cols && r.values == g.values
    ensures Where(r.field, Openable) <= Where(g.field, Openable)
    ensures g.started.Some? ==> r.started == g.started
    decreases |Where(g.field, Openable)| + 1, 0, |ps|
  {
    if ps == [] then g
    else
      var h := Open(g, ps[0].0, ps[0].1, now);
      SubsetCard(Where(h.field, Openable), Where(g.field, Openable));
      OpenAll(h, ps[1..], now)
  }

  /** What `gameReducer` needs of an action: a reset whose placement finishes, and an open or
      mark inside the grid. */
  predicate CanDispatch(g: Game, a: Action, cands: seq<Pos>) {
    match a
    case ResetAction(payload) => PlacementFinishes(OptionsOf(payload), cands)
    case OpenAction(row, col) => Shaped(g) && InGrid(row, col, g.rows, g.cols)
    case MarkAction(row, col) => Shaped(g) && InGrid(row, col, g.rows, g.cols)
    case RevealAllAction => Shaped(g)
    case OtherAction => true
  }

  /** `gameReducer`: dispatches on the action type; an unknown type leaves the state alone. */
  function Reducer(g: Game, a: Action, now: int, cands: seq<Pos>): (r: Game)
    requires CanDispatch(g, a, cands)
    ensures a.ResetAction? ==> r == Reset(OptionsOf(a.payload), cands)
    ensures a.OpenAction? ==> r == Open(g, a.row, a.col, now)
    ensures a.MarkAction? ==> r == MarkAt(g, a.row, a.col)
    ensures a.RevealAllAction? ==> r == RevealAll(g)
    ensures a.OtherAction? ==> r == g
  {
    match a
    case ResetAction(payload) => Reset(OptionsOf(payload), cands)
    case OpenAction(row, col) => Open(g, row, col, now)
    case MarkAction(row, col) => MarkAt(g, row, col)
    case RevealAllAction => RevealAll(g)
    case OtherAction => g
  }

  // ---------------------------------------------------------------------------------------
  // What one open does

  /** Opening a cell that is neither closed nor question changes nothing, stopped or not. */
  lemma OpenIgnored(g: Game, row: int, col: int, now: int)
    requires Shaped(g) && InGrid(row, col, g.rows, g.cols) && g.field[row][col] !in Openable
    ensures Open(g, row, col, now) == g
  {
  }

  /** Cells only go from closed/question to their value, `cellsLeft` drops once per opened
      cell, the clicked cell ends up open, and every opened 0 has its whole neighbourhood
      opened: the flood runs to the end even when it stops the game on the way. */
  lemma {:induction false} OpenSteps(g: Game, row: int, col: int, now: int)
    requires Shaped(g) && InGrid(row, col, g.rows, g.cols)
    ensures var r := Open(g, row, col, now);
      RevealStep(g, r) && Flooded(g, r)
      && r.field[row][col] !in Openable
      && (Settled(g) ==> Settled(r))
      && Reached(g, r, {(row, col)})
    decreases |Where(g.field, Openable)|, 1, 1
  {
    if g.field[row][col] in Openable {
      var next := Revealed(g, row, col, g.values, now);
      if g.values[row][col] == Num(0) {
        NeighboursExact(row, col, g.rows, g.cols);
        FloodSteps(g, next, row, col, now);
      } else {
        ReachedOne(g, Open(g, row, col, now), row, col);
      }
    } else {
      RevealStepRefl(g);
    }
  }

  /** The zero case of OpenSteps. */
  lemma {:induction false} FloodSteps(g: Game, next: Game, row: int, col: int, now: int)
    requires Shaped(g) && InGrid(row, col, g.rows, g.cols) && g.field[row][col] in Openable
    requires next == Revealed(g, row, col, g.values, now) && g.values[row][col] == Num(0)
    requires AllInGrid(Neighbours(row, col, g.rows, g.cols), g.rows, g.cols)
    ensures var r := OpenAll(next, Neighbours(row, col, g.rows, g.cols), now);
      RevealStep(g, r) && Flooded(g, r)
      && r.field[row][col] !in Openable
      && (Settled(g) ==> Settled(r))
      && Reached(g, r, {(row, col)})
    decreases |Where(g.field, Openable)|, 1, 0
  {
    var ns := Neighbours(row, col, g.rows, g.cols);
    NeighboursExact(row, col, g.rows, g.cols);
    RevealOne(g.field, row, col, Num(0));
    var r := OpenAll(next, ns, now);
    OpenAllSteps(next, ns, now);
    assert next.field[row][col] == Shown(Num(0)) && next.values == r.values;
    ZeroLevel(g, next, r, row, col, ns);
  }

  lemma {:induction false} OpenAllSteps(g: Game, ps: seq<Pos>, now: int)
    requires Shaped(g) && AllInGrid(ps, g.rows, g.cols)
    ensures var r := OpenAll(g, ps, now);
      RevealStep(g, r) && Flooded(g, r)
      && (forall k :: 0 <= k < |ps| ==> r.field[ps[k].0][ps[k].1] !in Openable)
      && (Settled(g) ==> Settled(r))
      && Reached(g, r, set p | p in ps)
    decreases |Where(g.field, Openable)| + 1, 0, |ps|
  {
    var r := OpenAll(g, ps, now);
    if ps == [] {
      RevealStepRefl(g);
    } else {
      var h := Open(g, ps[0].0, ps[0].1, now);
      SubsetCard(Where(h.field, Openable), Where(g.field, Openable));
      OpenSteps(g, ps[0].0, ps[0].1, now);
      OpenAllSteps(h, ps[1..], now);
      assert r == OpenAll(h, ps[1..], now);
      assert h.values == g.values && r.values == h.values;
      ReachedCons(g, h, r, ps);
      forall k | 0 <= k < |ps| ensures r.field[ps[k].0][ps[k].1] !in Openable {
        if k > 0 {
          assert ps[k] == ps[1..][k - 1];
        } else {
          assert h.field[ps[0].0][ps[0].1] !in Openable;
        }
      }
    }
  }

  /** The outcome of opening a closed or question cell, whatever the game's state: it shows
      its value, the clock starts if it had not, a mine loses (again, with a new stop time),
      and a non-zero value wins exactly when it was the last cell to open. */
  lemma OpenOutcome(g: Game, row: int, col: int, now: int)
    requires Shaped(g) && InGrid(row, col, g.rows, g.cols) && g.field[row][col] in Openable
    ensures var r := Open(g, row, col, now);
      var v := g.values[row][col];
      r.field[row][col] == Shown(v)
      && r.started == (if g.started.Some? then g.started else Some(now))
      && (v == Mine ==> r.won == Some(false) && r.stopped == Some(now))
      && (v.Num? && v.n > 0 && g.cellsLeft == 1 ==> r.won == Some(true) && r.stopped == Some(now))
      && (v.Num? && v.n > 0 && g.cellsLeft != 1 ==> r.won == g.won && r.stopped == g.stopped)
      && (v != Num(0) ==> r.field == g.field[row := g.field[row][col := Shown(v)]]
                          && r.cellsLeft == g.cellsLeft - 1)
  {
    var next := Revealed(g, row, col, g.values, now);
    if g.values[row][col] == Num(0) {
      NeighboursExact(row, col, g.rows, g.cols);
      FloodSteps(g, next, row, col, now);
    }
  }

  /** How an open ends: if it changes `won` or `stopped`, it stopped the game at `now` and
      either lost it on a mine it opened or won it on a number it opened with `cellsLeft` at
      0 or below (below once a loss was counted down too). */
  lemma {:induction false} OpenEnds(g: Game, row: int, col: int, now: int)
    requires Shaped(g) && InGrid(row, col, g.rows, g.cols)
    ensures var r := Open(g, row, col, now);
      RevealStep(g, r) && Decided(g, r, now)
    decreases |Where(g.field, Openable)|, 1, 1
  {
    var r := Open(g, row, col, now);
    OpenSteps(g, row, col, now);
    if g.field[row][col] in Openable {
      var next := Revealed(g, row, col, g.values, now);
      RevealOne(g.field, row, col, g.values[row][col]);
      if g.values[row][col] == Num(0) {
        NeighboursExact(row, col, g.rows, g.cols);
        FloodEnds(g, next, row, col, now);
      } else if g.values[row][col] == Mine {
        assert OpenedMine(g, r, row, col);
      } else {
        assert OpenedNumber(g, r, row, col);
      }
    }
  }

  /** The zero case of OpenEnds. */
  lemma {:induction false} FloodEnds(g: Game, next: Game, row: int, col: int, now: int)
    requires Shaped(g) && InGrid(row, col, g.rows, g.cols) && g.field[row][col] in Openable
    requires next == Revealed(g, row, col, g.values, now) && g.values[row][col] == Num(0)
    requires AllInGrid(Neighbours(row, col, g.rows, g.cols), g.rows, g.cols)
    ensures var r := OpenAll(next, Neighbours(row, col, g.rows, g.cols), now);
      RevealStep(g, r) && Decided(g, r, now)
    decreases |Where(g.field, Openable)|, 1, 0
  {
    var ns := Neighbours(row, col, g.rows, g.cols);
    RevealOne(g.field, row, col, Num(0));
    var r := OpenAll(next, ns, now);
    OpenAllEnds(next, ns, now);
    DecidedTrans(g, next, r, now);
  }

  lemma {:induction false} OpenAllEnds(g: Game, ps: seq<Pos>, now: int)
    requires Shaped(g) && AllInGrid(ps, g.rows, g.cols)
    ensures var r := OpenAll(g, ps, now);
      RevealStep(g, r) && Decided(g, r, now)
    decreases |Where(g.field, Openable)| + 1, 0, |ps|
  {
    var r := OpenAll(g, ps, now);
    if ps == [] {
      RevealStepRefl(g);
    } else {
      var h := Open(g, ps[0].0, ps[0].1, now);
      SubsetCard(Where(h.field, Openable), Where(g.field, Openable));
      OpenEnds(g, ps[0].0, ps[0].1, now);
      OpenAllEnds(h, ps[1..], now);
      assert r == OpenAll(h, ps[1..], now);
      DecidedTrans(g, h, r, now);
    }
  }

  /** An open that reveals nothing but zeros leaves `won` and `stopped` alone, whatever mines
      the board holds and even when it brings `cellsLeft` to 0. */
  lemma ZeroFloodNeverSettles(g: Game, row: int, col: int, now: int)
    requires Shaped(g) && InGrid(row, col, g.rows, g.cols)
    ensures var r := Open(g, row, col, now);
      RevealStep(g, r) && (ZerosOpened(g, r) ==> r.won == g.won && r.stopped == g.stopped)
  {
    var r := Open(g, row, col, now);
    OpenEnds(g, row, col, now);
    if ZerosOpened(g, r) {
      ZerosOpenedUndecided(g, r, now);
    }
  }

  lemma ZeroFloodAllNeverSettles(g: Game, ps: seq<Pos>, now: int)
    requires Shaped(g) && AllInGrid(ps, g.rows, g.cols)
    ensures var r := OpenAll(g, ps, now);
      RevealStep(g, r) && (ZerosOpened(g, r) ==> r.won == g.won && r.stopped == g.stopped)
  {
    var r := OpenAll(g, ps, now);
    OpenAllEnds(g, ps, now);
    if ZerosOpened(g, r) {
      ZerosOpenedUndecided(g, r, now);
    }
  }

  /** A lost game can still be won: on a 1 x 3 board whose only mine is at (0, 0), opening
      the mine loses, and opening (0, 1) afterwards brings `cellsLeft` to 0 (the mine was
      counted down too) and declares a win, with (0, 2) still closed. */
  lemma LossThenWin()
    ensures PlacementFinishes(Options(1, 3, 1), [(0, 0)])
    ensures var g := Reset(Options(1, 3, 1), [(0, 0)]);
      var lost := Open(g, 0, 0, 5);
      var later := Open(lost, 0, 1, 7);
      lost.won == Some(false) && lost.stopped == Some(5)
      && later.won == Some(true) && later.stopped == Some(7)
      && later.field[0][2] == Closed
  {
    var z := CreateValues(1, 3);
    var v := PutMine(z, 1, 3, 0, 0);
    assert v[0][0] == Mine && v[0][1] == Num(1) && v[0][2] == Num(0);
    assert Place(z, 1, 3, 1, None, [(0, 0)]) == (v, 0);
    var g := Reset(Options(1, 3, 1), [(0, 0)]);
    assert g.values == v && g.cellsLeft == 2;
    var lost := Open(g, 0, 0, 5);
    assert lost.cellsLeft == 1 && lost.field[0][1] == Closed && lost.field[0][2] == Closed;
  }

  // ---------------------------------------------------------------------------------------
  // The invariant of a game in play

  /** Shape, both counters, truthful revealed cells, won set together with stopped, right
      neighbour counts with no touching mines and exactly `mines` mines. */
  ghost predicate Playing(g: Game) {
    Shaped(g) && Counters(g) && Agree(g) && Settled(g)
    && Consistent(g.values, g.rows, g.cols) && NoAdjacentMines(g.values, g.rows, g.cols)
    && |MineSet(g.values, g.rows, g.cols)| == g.mines
  }

  lemma ResetPlaying(o: Options, cands: seq<Pos>)
    requires PlacementFinishes(o, cands)
    ensures Playing(Reset(o, cands))
  {
    AllCellsCount(o.rows, o.cols);
  }

  lemma OpenPlaying(g: Game, row: int, col: int, now: int)
    requires InGrid(row, col, g.rows, g.cols) && Playing(g)
    ensures Playing(Open(g, row, col, now))
  {
    var r := Open(g, row, col, now);
    OpenSteps(g, row, col, now);
    RevealStepCounters(g, r);
    RevealStepAgree(g, r);
  }

  /** Every action but revealAll keeps a game in play; a reset starts one from any state. */
  lemma ReducerPlaying(g: Game, a: Action, now: int, cands: seq<Pos>)
    requires CanDispatch(g, a, cands) && !a.RevealAllAction?
    requires a.ResetAction? || Playing(g)
    ensures Playing(Reducer(g, a, now, cands))
  {
    match a
    case ResetAction(payload) => ResetPlaying(OptionsOf(payload), cands);
    case OpenAction(row, col) => OpenPlaying(g, row, col, now);
    case MarkAction(row, col) => MarkAtCounters(g, row, col);
    case RevealAllAction =>
    case OtherAction =>
  }

  /** revealAll ends with nothing unrevealed, and the revealed cells keep their values. */
  lemma ReducerRevealsAll(g: Game, now: int, cands: seq<Pos>)
    requires Playing(g)
    ensures var r := Reducer(g, RevealAllAction, now, cands);
      Where(r.field, Unrevealed) == {}
      && forall i, j :: InGrid(i, j, g.rows, g.cols) && g.field[i][j].Shown? ==> r.field[i][j] == g.field[i][j]
  {
    RevealAllFinal(g);
  }
}
