// The game state shared by both engines, and the transitions that are the same in both:
// marking a cell and revealing the whole board.

module Board {
  import opened Geometry

  datatype Option<T> = None | Some(value: T)

  /** The hidden truth of one cell: its count of adjacent mines, or a mine. */
  datatype Value = Num(n: nat) | Mine

  /** What the player sees in one cell. `Shown(v)` is a revealed value, `MineWrong` a flag
      found to be over a non-mine at the end of the game. */
  datatype Cell = Closed | Flag | Question | Shown(v: Value) | MineWrong

  /** The engine state: the options, the two timestamps, the two counters, the hidden
      `values` grid, the visible `field` grid and the outcome. A timestamp is positive,
      so the source's truthiness tests on `started` and `stopped` are `Some?` tests here. */
  datatype Game = Game(
    rows: nat, cols: nat, mines: nat,
    started: Option<int>, stopped: Option<int>,
    minesLeft: int, cellsLeft: int,
    values: seq<seq<Value>>, field: seq<seq<Cell>>,
    won: Option<bool>)

  /** The `{ rows, cols, mines }` options of a reset. */
  datatype Options = Options(rows: nat, cols: nat, mines: nat)

  /** DEFAULT_GAME_OPTIONS, which both copies define and default their reset argument to. */
  const DefaultRows: nat := 10
  const DefaultCols: nat := 10
  const DefaultMines: nat := 10

  /** A missing options argument means DEFAULT_GAME_OPTIONS. */
  function OptionsOf(payload: Option<Options>): (o: Options)
    ensures payload.Some? ==> o == payload.value
    ensures payload.None? ==> o == Options(DefaultRows, DefaultCols, DefaultMines)
  {
    if payload.Some? then payload.value else Options(DefaultRows, DefaultCols, DefaultMines)
  }

  /** Cell states that `open` acts on. */
  const Openable: set<Cell> := {Closed, Question}
  /** Cell states that do not show a value. */
  const Unrevealed: set<Cell> := {Closed, Flag, Question}
  const Flags: set<Cell> := {Flag}

  predicate IsGrid<T>(g: seq<seq<T>>, rows: nat, cols: nat) {
    |g| == rows && forall i :: 0 <= i < rows ==> |g[i]| == cols
  }

  /** Both grids have the shape the options give. */
  predicate Shaped(g: Game) {
    IsGrid(g.values, g.rows, g.cols) && IsGrid(g.field, g.rows, g.cols)
  }

  /** The coordinates of the cells of `f` whose state is one of `kinds`. */
  function Where(f: seq<seq<Cell>>, kinds: set<Cell>): set<Pos> {
    set i, j | 0 <= i < |f| && 0 <= j < |f[i]| && f[i][j] in kinds :: (i, j)
  }

  function AllCells(rows: nat, cols: nat): set<Pos> {
    set i, j | 0 <= i < rows && 0 <= j < cols :: (i, j)
  }

  /** `createValues`: a rows x cols grid of zeros. */
  function CreateValues(rows: nat, cols: nat): (v: seq<seq<Value>>)
    ensures IsGrid(v, rows, cols)
    ensures forall i, j :: 0 <= i < rows && 0 <= j < cols ==> v[i][j] == Num(0)
  {
    seq(rows, _ => seq(cols, _ => Num(0)))
  }

  /** The visible grid of a fresh game: every cell closed. */
  function ClosedField(rows: nat, cols: nat): (f: seq<seq<Cell>>)
    ensures IsGrid(f, rows, cols)
    ensures forall i, j :: 0 <= i < rows && 0 <= j < cols ==> f[i][j] == Closed
    ensures Where(f, Unrevealed) == AllCells(rows, cols)
    ensures Where(f, Flags) == {}
  {
    seq(rows, _ => seq(cols, _ => Closed))
  }

  lemma CardDiff<T>(a: set<T>, d: set<T>)
    requires d <= a
    ensures |a - d| == |a| - |d|
  {
    assert a == (a - d) + d;
    assert (a - d) * d == {};
  }

  function RowCells(i: int, cols: nat): set<Pos> {
    set j | 0 <= j < cols :: (i, j)
  }

  lemma {:induction false} RowCellsCount(i: int, cols: nat)
    ensures |RowCells(i, cols)| == cols
  {
    if cols > 0 {
      RowCellsCount(i, cols - 1);
      assert RowCells(i, cols) == RowCells(i, cols - 1) + {(i, cols - 1)};
    }
  }

  lemma SplitLastRow(rows: nat, cols: nat)
    requires rows > 0
    ensures AllCells(rows, cols) == AllCells(rows - 1, cols) + RowCells(rows - 1, cols)
    ensures AllCells(rows - 1, cols) * RowCells(rows - 1, cols) == {}
  {
    var top, last := AllCells(rows - 1, cols), RowCells(rows - 1, cols);
    forall p | p in AllCells(rows, cols) ensures p in top + last {
      if p.0 < rows - 1 { assert p in top; } else { assert p in last; }
    }
  }

  /** A rows x cols grid has rows * cols cells. */
  lemma {:induction false} AllCellsCount(rows: nat, cols: nat)
    ensures |AllCells(rows, cols)| == rows * cols
  {
    if rows > 0 {
      AllCellsCount(rows - 1, cols);
      RowCellsCount(rows - 1, cols);
      SplitLastRow(rows, cols);
      assert rows * cols == (rows - 1) * cols + cols;
    }
  }

  /** Changing one cell moves at most that cell into or out of `Where(f, kinds)`. */
  lemma WhereUpdate(f: seq<seq<Cell>>, i: int, j: int, x: Cell, kinds: set<Cell>)
    requires 0 <= i < |f| && 0 <= j < |f[i]|
    ensures Where(f[i := f[i][j := x]], kinds)
      == if x in kinds then Where(f, kinds) + {(i, j)} else Where(f, kinds) - {(i, j)}
  {
  }

  lemma SubsetCard<T>(a: set<T>, b: set<T>)
    requires a <= b
    ensures |a| <= |b|
  {
    CardDiff(b, a);
  }

  /** Revealing a closed or question cell takes exactly that cell out of the openable and the
      unrevealed cells. */
  lemma RevealOne(f: seq<seq<Cell>>, i: int, j: int, v: Value)
    requires 0 <= i < |f| && 0 <= j < |f[i]| && f[i][j] in Openable
    ensures Where(f[i := f[i][j := Shown(v)]], Openable) == Where(f, Openable) - {(i, j)}
    ensures |Where(f[i := f[i][j := Shown(v)]], Openable)| == |Where(f, Openable)| - 1
  {
    WhereUpdate(f, i, j, Shown(v), Openable);
    assert (i, j) in Where(f, Openable);
  }

  // ---------------------------------------------------------------------------------------
  // Relations between a state and a later state, shared by the two `open` implementations

  /** From g to r, every cell either kept its state or went from closed/question to showing
      its value (the value in r, which may be freshly placed), and `cellsLeft` dropped by
      exactly the number of closed/question cells that were opened. Options and `minesLeft`
      are untouched. */
  ghost predicate RevealStep(g: Game, r: Game) {
    Shaped(g) && Shaped(r) && r.rows == g.rows && r.cols == g.cols && r.mines == g.mines
    && r.minesLeft == g.minesLeft
    && (forall i, j :: InGrid(i, j, g.rows, g.cols) ==>
          r.field[i][j] == g.field[i][j]
          || (g.field[i][j] in Openable && r.field[i][j] == Shown(r.values[i][j])))
    && r.cellsLeft + |Where(g.field, Openable)| == g.cellsLeft + |Where(r.field, Openable)|
  }

  /** No cell adjacent to (i, j) is still closed or question. */
  ghost predicate AroundOpened(r: Game, i: int, j: int)
    requires Shaped(r)
  {
    forall a, b :: InGrid(a, b, r.rows, r.cols) && Adjacent(a, b, i, j) ==> r.field[a][b] !in Openable
  }

  /** Every cell opened on the way from g to r whose value is 0 has had its whole
      neighbourhood opened (or is surrounded by flags and revealed cells). */
  ghost predicate Flooded(g: Game, r: Game)
    requires RevealStep(g, r)
  {
    forall i, j ::
      (InGrid(i, j, g.rows, g.cols) && r.field[i][j] != g.field[i][j] && r.values[i][j] == Num(0))
      ==> AroundOpened(r, i, j)
  }

  lemma RevealStepRefl(g: Game)
    requires Shaped(g)
    ensures RevealStep(g, g) && Flooded(g, g)
  {
  }

  lemma RevealStepTrans(a: Game, b: Game, c: Game)
    requires RevealStep(a, b) && RevealStep(b, c) && b.values == c.values
    ensures RevealStep(a, c)
    ensures Flooded(a, b) && Flooded(b, c) ==> Flooded(a, c)
  {
    if Flooded(a, b) && Flooded(b, c) {
      forall i, j | InGrid(i, j, a.rows, a.cols) && c.field[i][j] != a.field[i][j] && c.values[i][j] == Num(0)
        ensures AroundOpened(c, i, j)
      {
        if b.field[i][j] != a.field[i][j] {
          assert AroundOpened(b, i, j);
        }
      }
    }
  }

  // ---------------------------------------------------------------------------------------
  // Invariants of a game in play

  /** `cellsLeft` counts the unrevealed cells beyond the mines; `minesLeft` is the mine count
      minus the flags placed. */
  predicate Counters(g: Game) {
    g.cellsLeft == |Where(g.field, Unrevealed)| - g.mines
    && g.minesLeft == g.mines - |Where(g.field, Flags)|
  }

  /** Every revealed cell shows its hidden value. */
  ghost predicate Agree(g: Game)
    requires Shaped(g)
  {
    forall i, j :: InGrid(i, j, g.rows, g.cols) && g.field[i][j].Shown? ==> g.field[i][j].v == g.values[i][j]
  }

  /** No cell has been revealed yet. */
  ghost predicate NothingShown(g: Game)
    requires Shaped(g)
  {
    forall i, j :: InGrid(i, j, g.rows, g.cols) ==> g.field[i][j] in Unrevealed
  }

  /** A reveal step only removes openable cells from the closed ones, and keeps every flag. */
  lemma RevealStepWhere(g: Game, r: Game)
    requires RevealStep(g, r)
    ensures Where(r.field, Openable) <= Where(g.field, Openable)
    ensures Where(r.field, Unrevealed)
      == Where(g.field, Unrevealed) - (Where(g.field, Openable) - Where(r.field, Openable))
    ensures Where(r.field, Flags) == Where(g.field, Flags)
  {
    forall p: Pos | p in Where(r.field, Openable) ensures p in Where(g.field, Openable) {
      assert r.field[p.0][p.1] == g.field[p.0][p.1];
    }
    forall p: Pos ensures p in Where(r.field, Unrevealed)
      <==> p in Where(g.field, Unrevealed) && (p !in Where(g.field, Openable) || p in Where(r.field, Openable))
    {
      if InGrid(p.0, p.1, g.rows, g.cols) {
        var i, j := p.0, p.1;
        assert r.field[i][j] == g.field[i][j] || r.field[i][j] !in Unrevealed;
      }
    }
    forall p: Pos ensures p in Where(r.field, Flags) <==> p in Where(g.field, Flags) {
      if InGrid(p.0, p.1, g.rows, g.cols) {
        var i, j := p.0, p.1;
        assert r.field[i][j] == g.field[i][j] || (g.field[i][j] != Flag && r.field[i][j] != Flag);
      }
    }
  }

  /** Opening cells keeps both counters consistent with the field. */
  lemma RevealStepCounters(g: Game, r: Game)
    requires RevealStep(g, r) && Counters(g)
    ensures Counters(r)
  {
    var og, or := Where(g.field, Openable), Where(r.field, Openable);
    var d := og - or;
    RevealStepWhere(g, r);
    assert d <= Where(g.field, Unrevealed);
    CardDiff(og, d);
    assert og - d == or;
    CardDiff(Where(g.field, Unrevealed), d);
  }

  /** Opening cells keeps the revealed cells truthful, provided the hidden grid is the
      same, or nothing was revealed before. */
  lemma RevealStepAgree(g: Game, r: Game)
    requires RevealStep(g, r)
    requires (Agree(g) && r.values == g.values) || NothingShown(g)
    ensures Agree(r)
  {
  }

  // ---------------------------------------------------------------------------------------
  // markCell without the `stopped` guard (src/App.js), shared with src/game.js

  /** The `_markCell` switch: closed -> flag -> question -> closed; other states unchanged. */
  function Cycle(x: Cell): Cell {
    match x
    case Closed => Flag
    case Flag => Question
    case Question => Closed
    case _ => x
  }

  /** How one mark moves the flag set and the unrevealed set. */
  lemma MarkCounts(f: seq<seq<Cell>>, row: int, col: int)
    requires 0 <= row < |f| && 0 <= col < |f[row]|
    ensures var x := f[row][col];
      var f' := f[row := f[row][col := Cycle(x)]];
      |Where(f', Flags)| == |Where(f, Flags)| + (if x == Closed then 1 else if x == Flag then -1 else 0)
      && Where(f', Unrevealed) == Where(f, Unrevealed)
  {
    var x := f[row][col];
    var y := Cycle(x);
    WhereUpdate(f, row, col, y, Flags);
    WhereUpdate(f, row, col, y, Unrevealed);
    if x == Closed {
      assert (row, col) !in Where(f, Flags);
    } else if x == Flag {
      assert (row, col) in Where(f, Flags);
    } else {
      assert (row, col) !in Where(f, Flags);
    }
  }

  /** `won` is set exactly when `stopped` is. */
  predicate Settled(g: Game) {
    g.won.Some? <==> g.stopped.Some?
  }

  /** The `newState` of both copies of `openCell` before its value test: the cell shows its value, the clock
      starts if it has not, `cellsLeft` drops by one and the hidden grid is `values`. */
  function Revealed(g: Game, row: int, col: int, values: seq<seq<Value>>, now: int): (r: Game)
    requires Shaped(g) && IsGrid(values, g.rows, g.cols) && InGrid(row, col, g.rows, g.cols)
    requires g.field[row][col] in Openable
    ensures RevealStep(g, r) && r.values == values
    ensures r.started == (if g.started.Some? then g.started else Some(now))
    ensures r.cellsLeft == g.cellsLeft - 1
    ensures r == g.(field := r.field, started := r.started, cellsLeft := r.cellsLeft, values := values)
    ensures r.field == g.field[row := g.field[row][col := Shown(values[row][col])]]
    ensures forall i, j :: InGrid(i, j, g.rows, g.cols) && (i != row || j != col) ==> r.field[i][j] == g.field[i][j]
  {
    RevealOne(g.field, row, col, values[row][col]);
    g.(field := g.field[row := g.field[row][col := Shown(values[row][col])]],
       started := if g.started.Some? then g.started else Some(now),
       cellsLeft := g.cellsLeft - 1,
       values := values)
  }

  /** Cycles field[row][col] and moves `minesLeft` by -1 when the cell becomes a flag and by
      +1 when it stops being one. */
  function MarkAt(g: Game, row: int, col: int): (r: Game)
    requires Shaped(g) && InGrid(row, col, g.rows, g.cols)
    ensures Shaped(r) && r == g.(field := r.field, minesLeft := r.minesLeft)
    ensures r.field[row][col] == Cycle(g.field[row][col])
    ensures forall i, j :: InGrid(i, j, g.rows, g.cols) && (i != row || j != col) ==> r.field[i][j] == g.field[i][j]
    ensures r.minesLeft + |Where(r.field, Flags)| == g.minesLeft + |Where(g.field, Flags)|
    ensures Where(r.field, Unrevealed) == Where(g.field, Unrevealed)
  {
    var x := g.field[row][col];
    var y := Cycle(x);
    var diff := if y == Flag then -1 else if x == Flag then 1 else 0;
    MarkCounts(g.field, row, col);
    g.(field := g.field[row := g.field[row][col := y]], minesLeft := g.minesLeft + diff)
  }

  /** Marking a revealed cell changes nothing. */
  lemma MarkAtRevealed(g: Game, row: int, col: int)
    requires Shaped(g) && InGrid(row, col, g.rows, g.cols) && g.field[row][col] !in Unrevealed
    ensures MarkAt(g, row, col) == g
  {
    assert g.field[row][col := g.field[row][col]] == g.field[row];
    assert g.field[row := g.field[row]] == g.field;
  }

  /** Three marks bring an unrevealed cell, and the mine counter, back to where they were. */
  lemma MarkAtThrice(g: Game, row: int, col: int)
    requires Shaped(g) && InGrid(row, col, g.rows, g.cols) && g.field[row][col] in Unrevealed
    ensures MarkAt(MarkAt(MarkAt(g, row, col), row, col), row, col) == g
  {
    var g3 := MarkAt(MarkAt(MarkAt(g, row, col), row, col), row, col);
    assert g3.field[row][col] == g.field[row][col];
    assert g3.field[row] == g.field[row];
    assert g3.field == g.field;
  }

  /** Marking keeps both counters consistent with the field. */
  lemma MarkAtCounters(g: Game, row: int, col: int)
    requires Shaped(g) && InGrid(row, col, g.rows, g.cols) && Counters(g)
    ensures Counters(MarkAt(g, row, col))
  {
  }

  // ---------------------------------------------------------------------------------------
  // revealAll (identical in src/game.js and src/App.js)

  /** Every cell shows its hidden value, except a flag over a non-mine, which shows `MineWrong`.
      Only the field changes. */
  function RevealAll(g: Game): (r: Game)
    requires Shaped(g)
    ensures Shaped(r) && r == g.(field := r.field)
    ensures forall i, j :: InGrid(i, j, g.rows, g.cols) ==>
      (r.field[i][j] == MineWrong <==> g.field[i][j] == Flag && g.values[i][j] != Mine)
    ensures forall i, j :: InGrid(i, j, g.rows, g.cols) && r.field[i][j] != MineWrong ==>
      r.field[i][j] == Shown(g.values[i][j])
  {
    g.(field := seq(g.rows, i requires 0 <= i < g.rows =>
      seq(g.cols, j requires 0 <= j < g.cols =>
        if g.field[i][j] == Flag && g.values[i][j] != Mine then MineWrong else Shown(g.values[i][j]))))
  }

  /** After revealAll nothing is left unrevealed, and a cell that already showed its value
      keeps it. */
  lemma RevealAllFinal(g: Game)
    requires Shaped(g) && Agree(g)
    ensures Where(RevealAll(g).field, Unrevealed) == {}
    ensures forall i, j :: InGrid(i, j, g.rows, g.cols) && g.field[i][j].Shown? ==>
      RevealAll(g).field[i][j] == g.field[i][j]
  {
    var r := RevealAll(g);
    assert forall i, j :: 0 <= i < |r.field| && 0 <= j < |r.field[i]| ==> r.field[i][j] !in Unrevealed;
  }
}
