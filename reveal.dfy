// How far one open reaches and how it may end the game: every cell it opens is joined to a
// click by a chain of opened zeros, and it stops the game only on a mine or on a win.

module Reveal {
  import opened Geometry
  import opened Board

  /** (a, b) was opened on the way from g to r and holds 0. */
  ghost predicate OpenedZero(g: Game, r: Game, a: int, b: int)
    requires RevealStep(g, r)
  {
    InGrid(a, b, g.rows, g.cols) && r.field[a][b] != g.field[a][b] && r.values[a][b] == Num(0)
  }

  /** (a, b) was opened on the way from g to r and holds a mine. */
  ghost predicate OpenedMine(g: Game, r: Game, a: int, b: int)
    requires RevealStep(g, r)
  {
    InGrid(a, b, g.rows, g.cols) && r.field[a][b] != g.field[a][b] && r.values[a][b] == Mine
  }

  /** (a, b) was opened on the way from g to r and holds a non-zero number. */
  ghost predicate OpenedNumber(g: Game, r: Game, a: int, b: int)
    requires RevealStep(g, r)
  {
    InGrid(a, b, g.rows, g.cols) && r.field[a][b] != g.field[a][b]
    && r.values[a][b].Num? && r.values[a][b].n > 0
  }

  /** A chain of neighbouring cells in which every cell but the last is an opened 0. */
  ghost predicate ZeroPath(g: Game, r: Game, path: seq<Pos>)
    requires RevealStep(g, r)
    decreases |path|
  {
    |path| > 0
    && (|path| > 1 ==>
          OpenedZero(g, r, path[0].0, path[0].1)
          && Adjacent(path[0].0, path[0].1, path[1].0, path[1].1)
          && ZeroPath(g, r, path[1..]))
  }

  /** Every cell opened on the way from g to r ends a chain of opened zeros that starts at one
      of `seeds`: a reveal spreads from the click only through zeros, never across a number. */
  ghost predicate Reached(g: Game, r: Game, seeds: set<Pos>)
    requires RevealStep(g, r)
  {
    forall i, j :: InGrid(i, j, g.rows, g.cols) && r.field[i][j] != g.field[i][j] ==>
      exists path :: ZeroPath(g, r, path) && path[0] in seeds && path[|path| - 1] == (i, j)
  }

  /** A step that changes no cell but (row, col) reaches only from (row, col). */
  lemma ReachedOne(g: Game, r: Game, row: int, col: int)
    requires RevealStep(g, r)
    requires forall i, j :: InGrid(i, j, g.rows, g.cols) && (i != row || j != col) ==>
      r.field[i][j] == g.field[i][j]
    ensures Reached(g, r, {(row, col)})
  {
    assert ZeroPath(g, r, [(row, col)]);
  }

  lemma ZeroPathWiden(g1: Game, r1: Game, g2: Game, r2: Game, path: seq<Pos>)
    requires RevealStep(g1, r1) && RevealStep(g2, r2) && ZeroPath(g1, r1, path)
    requires forall a, b :: OpenedZero(g1, r1, a, b) ==> OpenedZero(g2, r2, a, b)
    ensures ZeroPath(g2, r2, path)
    decreases |path|
  {
    if |path| > 1 {
      ZeroPathWiden(g1, r1, g2, r2, path[1..]);
    }
  }

  /** An opened 0 next to the start of a chain extends the chain. */
  lemma ZeroPathPrepend(g: Game, r: Game, row: int, col: int, path: seq<Pos>)
    requires RevealStep(g, r) && ZeroPath(g, r, path) && OpenedZero(g, r, row, col)
    requires Adjacent(row, col, path[0].0, path[0].1)
    ensures ZeroPath(g, r, [(row, col)] + path)
  {
    assert ([(row, col)] + path)[1..] == path;
  }

  /** Reveal steps from seeds s1 then from seeds s2 reach no further than both seed sets. */
  lemma ReachedTrans(a: Game, b: Game, c: Game, s1: set<Pos>, s2: set<Pos>)
    requires RevealStep(a, b) && RevealStep(b, c) && b.values == c.values
    requires Reached(a, b, s1) && Reached(b, c, s2)
    ensures RevealStep(a, c) && Reached(a, c, s1 + s2)
  {
    RevealStepTrans(a, b, c);
    forall x, y | OpenedZero(a, b, x, y) ensures OpenedZero(a, c, x, y) {
      assert c.field[x][y] == b.field[x][y];
    }
    forall x, y | OpenedZero(b, c, x, y) ensures OpenedZero(a, c, x, y) {
      assert a.field[x][y] == b.field[x][y];
    }
    forall i, j | InGrid(i, j, a.rows, a.cols) && c.field[i][j] != a.field[i][j]
      ensures exists path :: ZeroPath(a, c, path) && path[0] in s1 + s2 && path[|path| - 1] == (i, j)
    {
      if b.field[i][j] != a.field[i][j] {
        var path: seq<Pos> :| ZeroPath(a, b, path) && path[0] in s1 && path[|path| - 1] == (i, j);
        ZeroPathWiden(a, b, a, c, path);
      } else {
        var path: seq<Pos> :| ZeroPath(b, c, path) && path[0] in s2 && path[|path| - 1] == (i, j);
        ZeroPathWiden(b, c, a, c, path);
      }
    }
  }

  /** Opening ps[0] and then the rest of ps reaches only from the cells of ps. */
  lemma ReachedCons(g: Game, h: Game, r: Game, ps: seq<Pos>)
    requires ps != [] && RevealStep(g, h) && RevealStep(h, r) && h.values == r.values
    requires Reached(g, h, {ps[0]}) && Reached(h, r, set p | p in ps[1..])
    ensures RevealStep(g, r) && Reached(g, r, set p | p in ps)
    ensures Flooded(g, h) && Flooded(h, r) ==> Flooded(g, r)
  {
    ReachedTrans(g, h, r, {ps[0]}, set p | p in ps[1..]);
    assert {ps[0]} + (set p | p in ps[1..]) == set p | p in ps;
  }

  /** Chains that start at a neighbour of an opened 0 can start at that 0 instead. */
  lemma ReachedNarrow(g: Game, r: Game, row: int, col: int, ns: seq<Pos>)
    requires RevealStep(g, r) && OpenedZero(g, r, row, col)
    requires forall p :: p in ns ==> Adjacent(p.0, p.1, row, col)
    requires Reached(g, r, {(row, col)} + set p | p in ns)
    ensures Reached(g, r, {(row, col)})
  {
    forall i, j | InGrid(i, j, g.rows, g.cols) && r.field[i][j] != g.field[i][j]
      ensures exists path :: ZeroPath(g, r, path) && path[0] in {(row, col)} && path[|path| - 1] == (i, j)
    {
      var path: seq<Pos> :| ZeroPath(g, r, path) && path[0] in {(row, col)} + (set p | p in ns)
        && path[|path| - 1] == (i, j);
      if path[0] != (row, col) {
        assert path[0] in ns;
        ZeroPathPrepend(g, r, row, col, path);
        assert ([(row, col)] + path)[|path|] == (i, j);
      }
    }
  }

  /** Opening a 0 at (row, col) and then its neighbours `ns` reaches only from (row, col). */
  lemma ReachedFromZero(g: Game, next: Game, r: Game, row: int, col: int, ns: seq<Pos>)
    requires RevealStep(g, next) && RevealStep(next, r) && next.values == r.values
    requires Reached(g, next, {(row, col)}) && Reached(next, r, set p | p in ns)
    requires InGrid(row, col, g.rows, g.cols) && g.field[row][col] in Openable
    requires next.field[row][col] == Shown(Num(0)) && next.values[row][col] == Num(0)
    requires forall p :: p in ns ==> Adjacent(p.0, p.1, row, col)
    ensures RevealStep(g, r) && Reached(g, r, {(row, col)})
  {
    ReachedTrans(g, next, r, {(row, col)}, set p | p in ns);
    assert r.field[row][col] == next.field[row][col];
    ReachedNarrow(g, r, row, col, ns);
  }

  /** Opening a 0 at (row, col), then flooding on from there until its neighbourhood is open,
      leaves every opened 0 with its neighbourhood open. */
  lemma FloodedFromZero(g: Game, next: Game, r: Game, row: int, col: int)
    requires RevealStep(g, next) && RevealStep(next, r) && next.values == r.values
    requires Flooded(next, r) && InGrid(row, col, g.rows, g.cols) && AroundOpened(r, row, col)
    requires forall i, j :: InGrid(i, j, g.rows, g.cols) && (i != row || j != col) ==>
      next.field[i][j] == g.field[i][j]
    ensures Flooded(g, r)
  {
    forall i, j | InGrid(i, j, g.rows, g.cols) && r.field[i][j] != g.field[i][j] && r.values[i][j] == Num(0)
      ensures AroundOpened(r, i, j)
    {
      if i != row || j != col {
        assert next.field[i][j] == g.field[i][j];
      }
    }
  }

  /** One level of the flood: a 0 opened at (row, col) in `next`, then the opens of its
      neighbours `ns` from `next` to `r`. The whole reaches only from (row, col), and it is
      flooded once the neighbourhood of (row, col) ends open. */
  lemma ZeroLevel(g: Game, next: Game, r: Game, row: int, col: int, ns: seq<Pos>)
    requires RevealStep(g, next) && RevealStep(next, r) && next.values == r.values
    requires InGrid(row, col, g.rows, g.cols) && g.field[row][col] in Openable
    requires next.field[row][col] == Shown(Num(0)) && next.values[row][col] == Num(0)
    requires forall i, j :: InGrid(i, j, g.rows, g.cols) && (i != row || j != col) ==>
      next.field[i][j] == g.field[i][j]
    requires AllInGrid(ns, g.rows, g.cols) && forall p :: p in ns ==> Adjacent(p.0, p.1, row, col)
    requires forall a, b :: InGrid(a, b, g.rows, g.cols) && Adjacent(a, b, row, col) ==> (a, b) in ns
    requires Reached(next, r, set p | p in ns)
    ensures RevealStep(g, r) && Reached(g, r, {(row, col)}) && r.field[row][col] !in Openable
    ensures Flooded(next, r) && (forall k :: 0 <= k < |ns| ==> r.field[ns[k].0][ns[k].1] !in Openable)
      ==> Flooded(g, r)
  {
    ReachedOne(g, next, row, col);
    ReachedFromZero(g, next, r, row, col, ns);
    if Flooded(next, r) && forall k :: 0 <= k < |ns| ==> r.field[ns[k].0][ns[k].1] !in Openable {
      forall a, b | InGrid(a, b, r.rows, r.cols) && Adjacent(a, b, row, col)
        ensures r.field[a][b] !in Openable
      {
        assert (a, b) in ns;
      }
      FloodedFromZero(g, next, r, row, col);
    }
  }

  /** When a reveal changes `won` or `stopped`, it stopped the game at `now`, and either lost
      it on a mine it opened, or won it on a number it opened with no cell left to count. */
  ghost predicate Decided(g: Game, r: Game, now: int)
    requires RevealStep(g, r)
  {
    (r.won != g.won || r.stopped != g.stopped) ==>
      r.stopped == Some(now)
      && ((r.won == Some(false) && exists a, b :: OpenedMine(g, r, a, b))
          || (r.won == Some(true) && r.cellsLeft <= 0 && exists a, b :: OpenedNumber(g, r, a, b)))
  }

  /** Two reveal steps that each end the game only that way end it only that way together. */
  lemma DecidedTrans(a: Game, b: Game, c: Game, now: int)
    requires RevealStep(a, b) && RevealStep(b, c) && b.values == c.values
    requires Decided(a, b, now) && Decided(b, c, now)
    ensures RevealStep(a, c) && Decided(a, c, now)
  {
    RevealStepTrans(a, b, c);
    RevealStepWhere(b, c);
    SubsetCard(Where(c.field, Openable), Where(b.field, Openable));
    forall x, y | OpenedMine(a, b, x, y) ensures OpenedMine(a, c, x, y) {
      assert c.field[x][y] == b.field[x][y];
    }
    forall x, y | OpenedMine(b, c, x, y) ensures OpenedMine(a, c, x, y) {
      assert a.field[x][y] == b.field[x][y];
    }
    forall x, y | OpenedNumber(a, b, x, y) ensures OpenedNumber(a, c, x, y) {
      assert c.field[x][y] == b.field[x][y];
    }
    forall x, y | OpenedNumber(b, c, x, y) ensures OpenedNumber(a, c, x, y) {
      assert a.field[x][y] == b.field[x][y];
    }
  }

  /** Every cell the step from `g` to `r` opened holds 0. */
  ghost predicate ZerosOpened(g: Game, r: Game)
    requires RevealStep(g, r)
  {
    forall i, j :: InGrid(i, j, g.rows, g.cols) && r.field[i][j] != g.field[i][j] ==>
      r.values[i][j] == Num(0)
  }

  /** A step that opens only zeros changes neither `won` nor `stopped`. */
  lemma ZerosOpenedUndecided(g: Game, r: Game, now: int)
    requires RevealStep(g, r) && Decided(g, r, now) && ZerosOpened(g, r)
    ensures r.won == g.won && r.stopped == g.stopped
  {
    forall a, b ensures !OpenedMine(g, r, a, b) && !OpenedNumber(g, r, a, b) {
    }
  }
}
