// Grid geometry: the 8-neighbourhood that `around` enumerates.

module Geometry {

  /** A (row, column) coordinate. */
  type Pos = (int, int)

  predicate InGrid(r: int, c: int, rows: int, cols: int) {
    0 <= r < rows && 0 <= c < cols
  }

  /** (r1, c1) is at Chebyshev distance exactly 1 from (r, c). */
  predicate Adjacent(r1: int, c1: int, r: int, c: int) {
    -1 <= r1 - r <= 1 && -1 <= c1 - c <= 1 && !(r1 == r && c1 == c)
  }

  predicate Distinct(s: seq<Pos>) {
    forall i, j :: 0 <= i < j < |s| ==> s[i] != s[j]
  }

  predicate AllInGrid(s: seq<Pos>, rows: int, cols: int) {
    forall k :: 0 <= k < |s| ==> InGrid(s[k].0, s[k].1, rows, cols)
  }

  /** The offset (ri, ci) tried at step k of the nested loop: three steps per value of ri. */
  function Offset(k: int): Pos
    requires 0 <= k < 9
  {
    if k < 3 then (-1, k - 1) else if k < 6 then (0, k - 4) else (1, k - 7)
  }

  /** Position of (r1, c1) in the loop's visiting order around (r, c). */
  function Step(r1: int, c1: int, r: int, c: int): int {
    3 * (r1 - r + 1) + (c1 - c + 1)
  }

  /** The cells handed to the callback during the first k of the loop's nine steps, in order. */
  function Scan(r: int, c: int, rows: int, cols: int, k: nat): seq<Pos>
    requires k <= 9
  {
    if k == 0 then []
    else
      var r1 := r + Offset(k - 1).0;
      var c1 := c + Offset(k - 1).1;
      Scan(r, c, rows, cols, k - 1)
        + if InGrid(r1, c1, rows, cols) && !(r1 == r && c1 == c) then [(r1, c1)] else []
  }

  /** Every cell `around(r, c, rows, cols, fn)` calls `fn` with, in call order. */
  function Neighbours(r: int, c: int, rows: int, cols: int): seq<Pos> {
    Scan(r, c, rows, cols, 9)
  }

  /** The loop reaches each offset at exactly one step. */
  lemma StepOffset(r1: int, c1: int, r: int, c: int)
    requires -1 <= r1 - r <= 1 && -1 <= c1 - c <= 1
    ensures 0 <= Step(r1, c1, r, c) < 9
    ensures Offset(Step(r1, c1, r, c)) == (r1 - r, c1 - c)
  {
  }

  /** The first k steps hand over exactly the in-bounds neighbours the loop reaches before
      step k. */
  lemma {:induction false} ScanMembers(r: int, c: int, rows: int, cols: int, k: nat)
    requires k <= 9
    ensures forall p :: p in Scan(r, c, rows, cols, k) <==>
      InGrid(p.0, p.1, rows, cols) && Adjacent(p.0, p.1, r, c) && Step(p.0, p.1, r, c) < k
  {
    if k > 0 {
      ScanMembers(r, c, rows, cols, k - 1);
      var q := (r + Offset(k - 1).0, c + Offset(k - 1).1);
      assert Step(q.0, q.1, r, c) == k - 1;
      forall p: Pos | Adjacent(p.0, p.1, r, c) && Step(p.0, p.1, r, c) == k - 1
        ensures p == q
      {
        StepOffset(p.0, p.1, r, c);
      }
    }
  }

  /** No cell is handed over twice. */
  lemma {:induction false} ScanDistinct(r: int, c: int, rows: int, cols: int, k: nat)
    requires k <= 9
    ensures Distinct(Scan(r, c, rows, cols, k))
  {
    if k > 0 {
      ScanDistinct(r, c, rows, cols, k - 1);
      ScanMembers(r, c, rows, cols, k - 1);
      var q := (r + Offset(k - 1).0, c + Offset(k - 1).1);
      assert Step(q.0, q.1, r, c) == k - 1;
      assert q !in Scan(r, c, rows, cols, k - 1);
    }
  }

  /** `around` visits exactly the in-bounds cells at distance 1, each once. */
  lemma NeighboursExact(r: int, c: int, rows: int, cols: int)
    ensures forall p :: p in Neighbours(r, c, rows, cols) <==>
      InGrid(p.0, p.1, rows, cols) && Adjacent(p.0, p.1, r, c)
    ensures Distinct(Neighbours(r, c, rows, cols))
    ensures AllInGrid(Neighbours(r, c, rows, cols), rows, cols)
  {
    ScanMembers(r, c, rows, cols, 9);
    ScanDistinct(r, c, rows, cols, 9);
    var s := Neighbours(r, c, rows, cols);
    forall k | 0 <= k < |s| ensures InGrid(s[k].0, s[k].1, rows, cols) {
      assert s[k] in s;
    }
  }

  /** One step of the nested loop at offset (ri, ci) extends the scan by at most that cell. */
  lemma ScanStep(r: int, c: int, rows: int, cols: int, ri: int, ci: int)
    requires -1 <= ri <= 1 && -1 <= ci <= 1
    ensures var k := 3 * (ri + 1) + (ci + 1);
      var r1 := r + ri;
      var c1 := c + ci;
      Scan(r, c, rows, cols, k + 1) == Scan(r, c, rows, cols, k)
        + if InGrid(r1, c1, rows, cols) && !(r1 == r && c1 == c) then [(r1, c1)] else []
  {
    assert Offset(3 * (ri + 1) + (ci + 1)) == (ri, ci);
  }

  /** The nested loop of `around`, returning the cells it would pass to its callback. */
  method Around(r: int, c: int, rows: int, cols: int) returns (ns: seq<Pos>)
    ensures ns == Neighbours(r, c, rows, cols)
    ensures forall p :: p in ns <==> InGrid(p.0, p.1, rows, cols) && Adjacent(p.0, p.1, r, c)
    ensures Distinct(ns) && AllInGrid(ns, rows, cols)
  {
    ns := [];
    for ri := -1 to 2
      invariant ns == Scan(r, c, rows, cols, 3 * (ri + 1))
    {
      for ci := -1 to 2
        invariant ns == Scan(r, c, rows, cols, 3 * (ri + 1) + (ci + 1))
      {
        var r1 := r + ri;
        var c1 := c + ci;
        ScanStep(r, c, rows, cols, ri, ci);
        if r1 >= 0 && r1 < rows && c1 >= 0 && c1 < cols && !(r1 == r && c1 == c) {
          ns := ns + [(r1, c1)];
        }
      }
    }
    NeighboursExact(r, c, rows, cols);
  }
}
