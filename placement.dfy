// placeMines: scattering mines over a grid of zeros and keeping the neighbour counts.
// The random coordinates are a supplied sequence of candidates.

module Placement {
  import opened Geometry
  import opened Board

  /** A candidate may receive a mine only outside the excluded row and the excluded column
      (src/game.js); with no exclusion every candidate may (src/App.js). */
  predicate Allowed(exclude: Option<Pos>, r: int, c: int) {
    exclude.None? || (r != exclude.value.0 && c != exclude.value.1)
  }

  /** The grid after writing a mine at (r, c) and incrementing each numeric neighbour. */
  function PutMine(g: seq<seq<Value>>, rows: nat, cols: nat, r: int, c: int): (h: seq<seq<Value>>)
    requires IsGrid(g, rows, cols) && InGrid(r, c, rows, cols)
    ensures IsGrid(h, rows, cols)
  {
    seq(rows, i requires 0 <= i < rows => seq(cols, j requires 0 <= j < cols =>
      if i == r && j == c then Mine
      else if Adjacent(i, j, r, c) && g[i][j].Num? then Num(g[i][j].n + 1)
      else g[i][j]))
  }

  /** The coordinates of the mines of g. */
  function MineSet(g: seq<seq<Value>>, rows: nat, cols: nat): set<Pos>
    requires IsGrid(g, rows, cols)
  {
    set i, j | 0 <= i < rows && 0 <= j < cols && g[i][j] == Mine :: (i, j)
  }

  lemma PutMineSet(g: seq<seq<Value>>, rows: nat, cols: nat, r: int, c: int)
    requires IsGrid(g, rows, cols) && InGrid(r, c, rows, cols) && g[r][c] != Mine
    ensures |MineSet(PutMine(g, rows, cols, r, c), rows, cols)| == |MineSet(g, rows, cols)| + 1
  {
    assert MineSet(PutMine(g, rows, cols, r, c), rows, cols) == MineSet(g, rows, cols) + {(r, c)};
    assert (r, c) !in MineSet(g, rows, cols);
  }

  /** The placement loop driven by the candidates: it stops once `left` mines are placed or
      the candidates run out, and returns the grid and the number of mines still to place.
      A candidate is used only when its cell holds 0 and it is allowed. */
  function Place(g: seq<seq<Value>>, rows: nat, cols: nat, left: nat, exclude: Option<Pos>, cands: seq<Pos>)
    : (res: (seq<seq<Value>>, nat))
    requires IsGrid(g, rows, cols) && AllInGrid(cands, rows, cols)
    ensures IsGrid(res.0, rows, cols) && res.1 <= left
    decreases |cands|
  {
    if left == 0 || cands == [] then (g, left)
    else
      var r, c := cands[0].0, cands[0].1;
      if g[r][c] == Num(0) && Allowed(exclude, r, c) then
        Place(PutMine(g, rows, cols, r, c), rows, cols, left - 1, exclude, cands[1..])
      else
        Place(g, rows, cols, left, exclude, cands[1..])
  }

  /** Each mine the loop counts down is a new mine in the grid. */
  lemma {:induction false} PlaceCount(g: seq<seq<Value>>, rows: nat, cols: nat, left: nat, exclude: Option<Pos>, cands: seq<Pos>)
    requires IsGrid(g, rows, cols) && AllInGrid(cands, rows, cols)
    ensures var res := Place(g, rows, cols, left, exclude, cands);
      |MineSet(res.0, rows, cols)| == |MineSet(g, rows, cols)| + (left - res.1)
    decreases |cands|
  {
    if left > 0 && cands != [] {
      var r, c := cands[0].0, cands[0].1;
      if g[r][c] == Num(0) && Allowed(exclude, r, c) {
        PutMineSet(g, rows, cols, r, c);
        PlaceCount(PutMine(g, rows, cols, r, c), rows, cols, left - 1, exclude, cands[1..]);
      } else {
        PlaceCount(g, rows, cols, left, exclude, cands[1..]);
      }
    }
  }

  // ---------------------------------------------------------------------------------------
  // Neighbour counts

  /** The mines adjacent to (i, j). */
  function MinesAround(g: seq<seq<Value>>, rows: nat, cols: nat, i: int, j: int): set<Pos>
    requires IsGrid(g, rows, cols)
  {
    set a, b | i - 1 <= a <= i + 1 && j - 1 <= b <= j + 1 && InGrid(a, b, rows, cols)
      && Adjacent(a, b, i, j) && g[a][b] == Mine :: (a, b)
  }

  /** Every numeric cell holds the number of mines around it. */
  ghost predicate Consistent(g: seq<seq<Value>>, rows: nat, cols: nat)
    requires IsGrid(g, rows, cols)
  {
    forall i, j :: InGrid(i, j, rows, cols) && g[i][j].Num? ==> g[i][j].n == |MinesAround(g, rows, cols, i, j)|
  }

  /** No two mines touch. */
  ghost predicate NoAdjacentMines(g: seq<seq<Value>>, rows: nat, cols: nat)
    requires IsGrid(g, rows, cols)
  {
    forall a, b, i, j ::
      (InGrid(a, b, rows, cols) && InGrid(i, j, rows, cols) && Adjacent(a, b, i, j) && g[a][b] == Mine)
      ==> g[i][j] != Mine
  }

  /** No mine in row `row` or in column `col`. */
  ghost predicate ClearLines(g: seq<seq<Value>>, rows: nat, cols: nat, row: int, col: int)
    requires IsGrid(g, rows, cols)
  {
    forall i, j :: InGrid(i, j, rows, cols) && (i == row || j == col) ==> g[i][j] != Mine
  }

  lemma PutMineAround(g: seq<seq<Value>>, rows: nat, cols: nat, r: int, c: int, i: int, j: int)
    requires IsGrid(g, rows, cols) && InGrid(r, c, rows, cols) && g[r][c] != Mine
    ensures MinesAround(PutMine(g, rows, cols, r, c), rows, cols, i, j)
      == MinesAround(g, rows, cols, i, j) + (if Adjacent(r, c, i, j) then {(r, c)} else {})
    ensures (r, c) !in MinesAround(g, rows, cols, i, j)
  {
  }

  /** Placing a mine on a non-mine keeps every numeric cell equal to its adjacent mine count. */
  lemma PutMineConsistent(g: seq<seq<Value>>, rows: nat, cols: nat, r: int, c: int)
    requires IsGrid(g, rows, cols) && InGrid(r, c, rows, cols) && g[r][c] != Mine
    requires Consistent(g, rows, cols)
    ensures Consistent(PutMine(g, rows, cols, r, c), rows, cols)
  {
    var h: seq<seq<Value>> := PutMine(g, rows, cols, r, c);
    forall i: int, j: int | InGrid(i, j, rows, cols) && h[i][j].Num?
      ensures h[i][j].n == |MinesAround(h, rows, cols, i, j)|
    {
      PutMineAround(g, rows, cols, r, c, i, j);
    }
  }

  /** A 0 in a consistent grid has no mine around it. */
  lemma ClearAround(g: seq<seq<Value>>, rows: nat, cols: nat, r: int, c: int)
    requires IsGrid(g, rows, cols) && InGrid(r, c, rows, cols) && g[r][c] == Num(0)
    requires Consistent(g, rows, cols)
    ensures forall a, b :: InGrid(a, b, rows, cols) && Adjacent(a, b, r, c) ==> g[a][b] != Mine
    ensures forall a, b :: InGrid(a, b, rows, cols) && Adjacent(r, c, a, b) ==> g[a][b] != Mine
  {
    assert MinesAround(g, rows, cols, r, c) == {};
    forall a, b | InGrid(a, b, rows, cols) && Adjacent(a, b, r, c) ensures g[a][b] != Mine {
      assert (a, b) !in MinesAround(g, rows, cols, r, c);
    }
  }

  /** A mine placed on a 0 of a consistent grid touches no other mine. */
  lemma PutMineApart(g: seq<seq<Value>>, rows: nat, cols: nat, r: int, c: int)
    requires IsGrid(g, rows, cols) && InGrid(r, c, rows, cols) && g[r][c] == Num(0)
    requires Consistent(g, rows, cols) && NoAdjacentMines(g, rows, cols)
    ensures NoAdjacentMines(PutMine(g, rows, cols, r, c), rows, cols)
  {
    var h: seq<seq<Value>> := PutMine(g, rows, cols, r, c);
    ClearAround(g, rows, cols, r, c);
    assert forall x, y :: InGrid(x, y, rows, cols) ==> (h[x][y] == Mine <==> g[x][y] == Mine || (x == r && y == c));
  }

  /** Placement keeps the neighbour counts right and the mines apart. */
  lemma {:induction false} PlaceConsistent(g: seq<seq<Value>>, rows: nat, cols: nat, left: nat, exclude: Option<Pos>, cands: seq<Pos>)
    requires IsGrid(g, rows, cols) && AllInGrid(cands, rows, cols)
    requires Consistent(g, rows, cols) && NoAdjacentMines(g, rows, cols)
    ensures var h := Place(g, rows, cols, left, exclude, cands).0;
      Consistent(h, rows, cols) && NoAdjacentMines(h, rows, cols)
    decreases |cands|
  {
    if left > 0 && cands != [] {
      var r, c := cands[0].0, cands[0].1;
      if g[r][c] == Num(0) && Allowed(exclude, r, c) {
        PutMineConsistent(g, rows, cols, r, c);
        PutMineApart(g, rows, cols, r, c);
        PlaceConsistent(PutMine(g, rows, cols, r, c), rows, cols, left - 1, exclude, cands[1..]);
      } else {
        PlaceConsistent(g, rows, cols, left, exclude, cands[1..]);
      }
    }
  }

  /** With an exclusion, no mine lands in the excluded row or the excluded column. */
  lemma {:induction false} PlaceExcludes(g: seq<seq<Value>>, rows: nat, cols: nat, left: nat, row: int, col: int, cands: seq<Pos>)
    requires IsGrid(g, rows, cols) && AllInGrid(cands, rows, cols)
    requires ClearLines(g, rows, cols, row, col)
    ensures ClearLines(Place(g, rows, cols, left, Some((row, col)), cands).0, rows, cols, row, col)
    decreases |cands|
  {
    if left > 0 && cands != [] {
      var r, c := cands[0].0, cands[0].1;
      if g[r][c] == Num(0) && Allowed(Some((row, col)), r, c) {
        PlaceExcludes(PutMine(g, rows, cols, r, c), rows, cols, left - 1, row, col, cands[1..]);
      } else {
        PlaceExcludes(g, rows, cols, left, row, col, cands[1..]);
      }
    }
  }

  /** The zero grid has no mines and its counts are right. */
  lemma ZerosConsistent(rows: nat, cols: nat)
    ensures MineSet(CreateValues(rows, cols), rows, cols) == {}
    ensures Consistent(CreateValues(rows, cols), rows, cols)
    ensures NoAdjacentMines(CreateValues(rows, cols), rows, cols)
  {
    var z := CreateValues(rows, cols);
    forall i, j | InGrid(i, j, rows, cols) ensures MinesAround(z, rows, cols, i, j) == {} {
    }
  }

  /** A placement on fresh zeros that uses up its mine budget has exactly that many mines,
      right counts, no touching mines, and (with an exclusion) none in the excluded row or
      column, so none on the excluded cell. */
  lemma FreshPlacement(rows: nat, cols: nat, mines: nat, exclude: Option<Pos>, cands: seq<Pos>)
    requires AllInGrid(cands, rows, cols)
    requires Place(CreateValues(rows, cols), rows, cols, mines, exclude, cands).1 == 0
    ensures var v := Place(CreateValues(rows, cols), rows, cols, mines, exclude, cands).0;
      |MineSet(v, rows, cols)| == mines && Consistent(v, rows, cols) && NoAdjacentMines(v, rows, cols)
      && (exclude.Some? ==> ClearLines(v, rows, cols, exclude.value.0, exclude.value.1))
  {
    ZerosConsistent(rows, cols);
    PlaceCount(CreateValues(rows, cols), rows, cols, mines, exclude, cands);
    PlaceConsistent(CreateValues(rows, cols), rows, cols, mines, exclude, cands);
    if exclude.Some? {
      PlaceExcludes(CreateValues(rows, cols), rows, cols, mines, exclude.value.0, exclude.value.1, cands);
    }
  }

  // ---------------------------------------------------------------------------------------
  // The loop itself, writing into the grid in place

  ghost function Cells(a: array2<Value>): (g: seq<seq<Value>>)
    reads a
    ensures IsGrid(g, a.Length0, a.Length1)
    ensures forall i, j :: InGrid(i, j, a.Length0, a.Length1) ==> g[i][j] == a[i, j]
  {
    seq(a.Length0, i requires 0 <= i < a.Length0 reads a =>
      seq(a.Length1, j requires 0 <= j < a.Length1 reads a => a[i, j]))
  }

  /** One step of the placement loop on a non-empty candidate list with mines left. */
  lemma PlaceStep(g: seq<seq<Value>>, rows: nat, cols: nat, left: nat, exclude: Option<Pos>, cands: seq<Pos>, i: nat)
    requires IsGrid(g, rows, cols) && AllInGrid(cands, rows, cols) && left > 0 && i < |cands|
    ensures var r, c := cands[i].0, cands[i].1;
      Place(g, rows, cols, left, exclude, cands[i..])
      == if g[r][c] == Num(0) && Allowed(exclude, r, c)
         then Place(PutMine(g, rows, cols, r, c), rows, cols, left - 1, exclude, cands[i + 1..])
         else Place(g, rows, cols, left, exclude, cands[i + 1..])
  {
    assert cands[i..][0] == cands[i];
    assert cands[i..][1..] == cands[i + 1..];
  }

  /** The body of an accepted candidate: a mine at (r, c), then `around` and the increments. */
  method Drop(field: array2<Value>, r: int, c: int)
    requires InGrid(r, c, field.Length0, field.Length1)
    modifies field
    ensures Cells(field) == PutMine(old(Cells(field)), field.Length0, field.Length1, r, c)
  {
    var rows, cols := field.Length0, field.Length1;
    ghost var before: seq<seq<Value>> := Cells(field);
    field[r, c] := Mine;
    var ns := Around(r, c, rows, cols);
    for k := 0 to |ns|
      invariant forall a: int, b: int :: InGrid(a, b, rows, cols) ==>
        field[a, b] == if a == r && b == c then Mine
          else if (a, b) in ns[..k] && before[a][b].Num? then Num(before[a][b].n + 1)
          else before[a][b]
    {
      var r1, c1 := ns[k].0, ns[k].1;
      assert ns[k] !in ns[..k];
      assert ns[..k + 1] == ns[..k] + [ns[k]];
      if field[r1, c1].Num? {
        field[r1, c1] := Num(field[r1, c1].n + 1);
      }
    }
    assert ns[..|ns|] == ns;
    BumpedIsPutMine(before, Cells(field), rows, cols, r, c, ns);
  }

  /** A grid whose cells are `before` with a mine at (r, c) and every numeric cell listed in
      `ns` incremented is PutMine(before, ...), when `ns` lists exactly the neighbours. */
  lemma BumpedIsPutMine(before: seq<seq<Value>>, cur: seq<seq<Value>>, rows: nat, cols: nat, r: int, c: int, ns: seq<Pos>)
    requires IsGrid(before, rows, cols) && IsGrid(cur, rows, cols) && InGrid(r, c, rows, cols)
    requires forall p :: p in ns <==> InGrid(p.0, p.1, rows, cols) && Adjacent(p.0, p.1, r, c)
    requires forall a, b :: InGrid(a, b, rows, cols) ==>
      cur[a][b] == if a == r && b == c then Mine
        else if (a, b) in ns && before[a][b].Num? then Num(before[a][b].n + 1)
        else before[a][b]
    ensures cur == PutMine(before, rows, cols, r, c)
  {
    var after := PutMine(before, rows, cols, r, c);
    forall a | 0 <= a < rows ensures cur[a] == after[a] {
      forall b | 0 <= b < cols ensures cur[a][b] == after[a][b] {
        assert (a, b) in ns <==> Adjacent(a, b, r, c);
      }
    }
  }

  /** `placeMines`: draws candidates until `mines` mines are written or the candidates run
      out; each accepted candidate becomes a mine and its numeric neighbours, as `around`
      lists them, are incremented in place. Returns the number of mines not placed. */
  method PlaceMines(field: array2<Value>, mines: nat, exclude: Option<Pos>, cands: seq<Pos>) returns (left: nat)
    requires AllInGrid(cands, field.Length0, field.Length1)
    modifies field
    ensures (Cells(field), left) == Place(old(Cells(field)), field.Length0, field.Length1, mines, exclude, cands)
  {
    var rows, cols := field.Length0, field.Length1;
    ghost var goal := Place(Cells(field), rows, cols, mines, exclude, cands);
    left := mines;
    var i := 0;
    assert cands[0..] == cands;
    while left > 0 && i < |cands|
      invariant 0 <= i <= |cands|
      invariant Place(Cells(field), rows, cols, left, exclude, cands[i..]) == goal
    {
      var r, c := cands[i].0, cands[i].1;
      ghost var g := Cells(field);
      PlaceStep(g, rows, cols, left, exclude, cands, i);
      if field[r, c] == Num(0) && Allowed(exclude, r, c) {
        Drop(field, r, c);
        left := left - 1;
        assert Cells(field) == PutMine(g, rows, cols, r, c);
      } else {
        assert g[r][c] != Num(0) || !Allowed(exclude, r, c);
      }
      i := i + 1;
    }
  }
}
