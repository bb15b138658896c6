/** The grid helpers of schelling.py: the occupancy test of a home, the
    swap of two homes, the list of unoccupied homes and the similarity
    score of a homeowner's neighbourhood.

    The city grid, a list of lists of strings in the program, is one
    `array2<string>`: swap_location builds a new outer list over the same
    row lists, so its writes reach the caller's grid as well, and the model
    updates the one grid in place. */
module Schelling {
  import opened Wrappers

  /** A (row, column) pair. */
  type Location = (int, int)

  /** The cell labels: a blue or red homeowner, or an unoccupied home. */
  const Blue := "B"
  const Red := "R"
  const Open := "O"

  predicate InGrid(grid: array2<string>, p: Location) {
    0 <= p.0 < grid.Length0 && 0 <= p.1 < grid.Length1
  }

  // ---------------------------------------------------------------------
  // unoccupied_home

  /** unoccupied_home (lines 89-105): False for an unoccupied home, True
      for a homeowner, and None (the function falls off its end) for any
      other label. */
  function UnoccupiedHome(grid: array2<string>, p: Location): (r: Option<bool>)
    requires InGrid(grid, p)
    reads grid
  {
    var cell := grid[p.0, p.1];
    if cell == Open then Some(false)
    else if cell == Blue || cell == Red then Some(true)
    else None
  }

  /** Despite its name, unoccupied_home answers True exactly at an occupied
      home and False exactly at an unoccupied one. */
  lemma UnoccupiedHomeSpec(grid: array2<string>, p: Location)
    requires InGrid(grid, p)
    ensures UnoccupiedHome(grid, p) == Some(true) <==> grid[p.0, p.1] in {Blue, Red}
    ensures UnoccupiedHome(grid, p) == Some(false) <==> grid[p.0, p.1] == Open
    ensures UnoccupiedHome(grid, p).None? <==> grid[p.0, p.1] !in {Blue, Red, Open}
  {
  }

  // ---------------------------------------------------------------------
  // swap_location

  /** The labels of the grid, row by row. */
  function Cells(grid: array2<string>): (g: seq<seq<string>>)
    reads grid
    ensures |g| == grid.Length0
    ensures forall i :: 0 <= i < |g| ==> |g[i]| == grid.Length1
  {
    seq(grid.Length0, i requires 0 <= i < grid.Length0 reads grid =>
      seq(grid.Length1, j requires 0 <= j < grid.Length1 reads grid => grid[i, j]))
  }

  predicate InCells(g: seq<seq<string>>, p: Location) {
    0 <= p.0 < |g| && 0 <= p.1 < |g[p.0]|
  }

  /** Lines 125-126 on labels: the label of `from` is written at `to`, then
      "O" at `from`. */
  function Swapped(g: seq<seq<string>>, from: Location, to: Location): seq<seq<string>>
    requires InCells(g, from) && InCells(g, to)
  {
    var g1 := g[to.0 := g[to.0][to.1 := g[from.0][from.1]]];
    g1[from.0 := g1[from.0][from.1 := Open]]
  }

  /** The swap puts the occupant's label at the destination and "O" at the
      source and changes no other cell; the grid keeps its shape. */
  lemma SwappedCells(g: seq<seq<string>>, from: Location, to: Location)
    requires InCells(g, from) && InCells(g, to)
    ensures |Swapped(g, from, to)| == |g|
    ensures forall i :: 0 <= i < |g| ==> |Swapped(g, from, to)[i]| == |g[i]|
    ensures forall i, j :: 0 <= i < |g| && 0 <= j < |g[i]| ==>
      Swapped(g, from, to)[i][j] ==
        if (i, j) == from then Open else if (i, j) == to then g[from.0][from.1] else g[i][j]
  {
  }

  /** Moving a homeowner into an unoccupied home and back restores the grid
      (the trial moves of relocate, lines 176-182). */
  lemma SwapBack(g: seq<seq<string>>, from: Location, to: Location)
    requires InCells(g, from) && InCells(g, to)
    requires from != to && g[to.0][to.1] == Open
    ensures Swapped(Swapped(g, from, to), to, from) == g
  {
    SwappedCells(g, from, to);
    var g1 := Swapped(g, from, to);
    SwappedCells(g1, to, from);
    var g2 := Swapped(g1, to, from);
    assert |g2| == |g|;
    forall i | 0 <= i < |g|
      ensures g2[i] == g[i]
    {
      assert |g2[i]| == |g[i]|;
      forall j | 0 <= j < |g[i]|
        ensures g2[i][j] == g[i][j]
      {
      }
    }
  }

  /** swap_location (lines 108-128). */
  method SwapLocation(grid: array2<string>, occupied: Location, unoccupied: Location)
    requires InGrid(grid, occupied) && InGrid(grid, unoccupied)
    modifies grid
    ensures Cells(grid) == Swapped(old(Cells(grid)), occupied, unoccupied)
  {
    ghost var g := Cells(grid);
    grid[unoccupied.0, unoccupied.1] := grid[occupied.0, occupied.1];
    grid[occupied.0, occupied.1] := Open;
    SwappedCells(g, occupied, unoccupied);
    assert Cells(grid) == Swapped(g, occupied, unoccupied) by {
      var s := Swapped(g, occupied, unoccupied);
      forall i | 0 <= i < grid.Length0
        ensures Cells(grid)[i] == s[i]
      {
        forall j | 0 <= j < grid.Length1
          ensures Cells(grid)[i][j] == s[i][j]
        {
        }
      }
    }
  }

  // ---------------------------------------------------------------------
  // make_unoccupied_list

  /** p comes before q in row-major order. */
  predicate Before(p: Location, q: Location) {
    p.0 < q.0 || (p.0 == q.0 && p.1 < q.1)
  }

  /** make_unoccupied_list (lines 130-148). Rows and columns both range
      over range(len(grid)), so a grid with fewer columns than rows would
      raise IndexError. */
  method MakeUnoccupiedList(grid: array2<string>) returns (unoccupiedList: seq<Location>)
    requires grid.Length0 <= grid.Length1
    ensures forall p :: p in unoccupiedList <==>
      0 <= p.0 < grid.Length0 && 0 <= p.1 < grid.Length0 && grid[p.0, p.1] == Open
    ensures forall i, j :: 0 <= i < j < |unoccupiedList| ==> Before(unoccupiedList[i], unoccupiedList[j])
  {
    var n := grid.Length0;
    unoccupiedList := [];
    for row := 0 to n
      invariant forall p :: p in unoccupiedList <==> 0 <= p.0 < row && 0 <= p.1 < n && grid[p.0, p.1] == Open
      invariant forall i, j :: 0 <= i < j < |unoccupiedList| ==> Before(unoccupiedList[i], unoccupiedList[j])
      invariant forall i :: 0 <= i < |unoccupiedList| ==> unoccupiedList[i].0 < row
    {
      for column := 0 to n
        invariant forall p :: p in unoccupiedList <==>
          (0 <= p.0 < row && 0 <= p.1 < n && grid[p.0, p.1] == Open)
          || (p.0 == row && 0 <= p.1 < column && grid[p.0, p.1] == Open)
        invariant forall i, j :: 0 <= i < j < |unoccupiedList| ==> Before(unoccupiedList[i], unoccupiedList[j])
        invariant forall i :: 0 <= i < |unoccupiedList| ==> Before(unoccupiedList[i], (row, column))
      {
        if grid[row, column] == Open {
          unoccupiedList := unoccupiedList + [(row, column)];
        }
      }
    }
  }

  // ---------------------------------------------------------------------
  // compute_similarity_score

  function Max(a: int, b: int): int { if a < b then b else a }
  function Min(a: int, b: int): int { if a < b then a else b }

  /** list(range(lo, hi)). */
  function Range(lo: int, hi: int): (r: seq<int>)
    ensures |r| == if lo <= hi then hi - lo else 0
    ensures forall i :: 0 <= i < |r| ==> r[i] == lo + i
  {
    if hi <= lo then [] else seq(hi - lo, i => lo + i)
  }

  /** The window rows (or columns) lo .. hi - 1 cut to the grid's indices
      0 .. bound, as the clipping of lines 62-72 is meant to leave them. */
  function Clip(lo: int, hi: int, bound: int): seq<int> {
    Range(Max(lo, 0), Min(hi, bound + 1))
  }

  /** The clipped window holds exactly the in-range indices of the window,
      in increasing order. */
  lemma ClipSpec(lo: int, hi: int, bound: int)
    ensures forall x :: x in Clip(lo, hi, bound) <==> lo <= x < hi && 0 <= x <= bound
    ensures forall i, j :: 0 <= i < j < |Clip(lo, hi, bound)| ==> Clip(lo, hi, bound)[i] < Clip(lo, hi, bound)[j]
  {
    var r := Clip(lo, hi, bound);
    forall x | lo <= x < hi && 0 <= x <= bound
      ensures x in r
    {
      assert r[x - Max(lo, 0)] == x;
    }
  }

  lemma RangeDropFirst(a: int, b: int)
    requires a < b
    ensures Range(a, b)[1..] == Range(a + 1, b)
  {
  }

  lemma RangeDropLast(a: int, b: int)
    requires a < b
    ensures Range(a, b)[..b - a - 1] == Range(a, b - 1)
  {
  }

  lemma RangeEmpty(a: int, b: int)
    requires b <= a
    ensures Range(a, b) == []
  {
  }

  /** One pass of the clipping loop of lines 63-67: drop the first index if
      it is negative, then the last if it is past bound. */
  function DropOutside(r: seq<int>, bound: int): (d: seq<int>)
    ensures |d| <= |r|
  {
    var r1 := if |r| > 0 && r[0] < 0 then r[1..] else r;
    if |r1| > 0 && r1[|r1| - 1] > bound then r1[..|r1| - 1] else r1
  }

  /** The clipping loop as written: `for r in row_list` deletes from the
      list it iterates over, so it stops after as many passes as the
      shrinking list is long from the pass index on. */
  function Clipped(r: seq<int>, bound: int, i: nat): seq<int>
    decreases |r| - i
  {
    if i >= |r| then r else Clipped(DropOutside(r, bound), bound, i + 1)
  }

  /** Lines 63-67 as written (and lines 68-72 for the columns). The source
      would raise IndexError on an emptied list; the model leaves such a
      list as it is. */
  method ClipAsWritten(lo: int, hi: int, bound: int) returns (r: seq<int>)
    ensures r == Clipped(Range(lo, hi), bound, 0)
  {
    r := Range(lo, hi);
    var i := 0;
    while i < |r|
      invariant Clipped(r, bound, i) == Clipped(Range(lo, hi), bound, 0)
      decreases |r| - i
    {
      ghost var pass := DropOutside(r, bound);
      assert Clipped(r, bound, i) == Clipped(pass, bound, i + 1);
      if r[0] < 0 {
        r := r[1..];
      }
      if |r| > 0 && r[|r| - 1] > bound {
        r := r[..|r| - 1];
      }
      assert r == pass;
      i := i + 1;
    }
  }

  /** A pass over a window that starts below 0 and ends past bound drops
      one index at each end. */
  lemma DropBoth(a: int, b: int, bound: int)
    requires a < 0 && a + 1 < b && b - 1 > bound
    ensures DropOutside(Range(a, b), bound) == Range(a + 1, b - 1)
  {
    RangeDropFirst(a, b);
    RangeDropLast(a + 1, b);
  }

  /** With a one-row grid and R = 4 the loop stops while -1 and 1 are
      still in the list, so the window reaches outside the grid. */
  lemma ClipAsWrittenOverruns()
    ensures Clipped(Range(-4, 5), 0, 0) == [-1, 0, 1]
    ensures Clip(-4, 5, 0) == [0]
  {
    DropBoth(-4, 5, 0);
    DropBoth(-3, 4, 0);
    DropBoth(-2, 3, 0);
    assert Clipped(Range(-4, 5), 0, 0) == Clipped(Range(-3, 4), 0, 1);
    assert Clipped(Range(-3, 4), 0, 1) == Clipped(Range(-2, 3), 0, 2);
    assert Clipped(Range(-2, 3), 0, 2) == Clipped(Range(-1, 2), 0, 3);
    var r3 := Range(-1, 2);
    assert Clipped(r3, 0, 3) == r3;
    assert r3 == [-1, 0, 1];
    var c := Range(0, 1);
    assert c == [0];
  }

  /** The clipping the loop of lines 63-72 is meant to do: drop indices
      from the front while they are negative and from the back while they
      are past bound. */
  method ClipIndices(lo: int, hi: int, bound: int) returns (r: seq<int>)
    ensures r == Clip(lo, hi, bound)
  {
    r := Range(lo, hi);
    ghost var a := lo;
    while |r| > 0 && r[0] < 0
      invariant lo <= a && (a == lo || a <= 0)
      invariant r == Range(a, hi)
      decreases |r|
    {
      RangeDropFirst(a, hi);
      r := r[1..];
      a := a + 1;
    }
    assert a == Max(lo, 0) || hi <= a;
    ghost var b := hi;
    while |r| > 0 && r[|r| - 1] > bound
      invariant b <= hi && (b == hi || b >= bound + 1)
      invariant r == Range(a, b)
      decreases |r|
    {
      RangeDropLast(a, b);
      r := r[..|r| - 1];
      b := b - 1;
    }
    if |r| == 0 {
      assert Min(hi, bound + 1) <= Max(lo, 0);
      RangeEmpty(Max(lo, 0), Min(hi, bound + 1));
    } else {
      assert a == Max(lo, 0) && b == Min(hi, bound + 1);
    }
  }

  /** The number of columns y of cols whose label in row x is mark (when
      matching) or is not mark (otherwise). */
  function RowCount(grid: array2<string>, x: int, cols: seq<int>, mark: string, matching: bool): nat
    requires 0 <= x < grid.Length0
    requires forall j :: 0 <= j < |cols| ==> 0 <= cols[j] < grid.Length1
    reads grid
    decreases |cols|
  {
    if |cols| == 0 then 0
    else
      RowCount(grid, x, cols[..|cols| - 1], mark, matching)
        + (if (grid[x, cols[|cols| - 1]] == mark) == matching then 1 else 0)
  }

  /** The matching count over the cells rows x cols. */
  function GridCount(grid: array2<string>, rows: seq<int>, cols: seq<int>, mark: string, matching: bool): nat
    requires forall i :: 0 <= i < |rows| ==> 0 <= rows[i] < grid.Length0
    requires forall j :: 0 <= j < |cols| ==> 0 <= cols[j] < grid.Length1
    reads grid
    decreases |rows|
  {
    if |rows| == 0 then 0
    else
      GridCount(grid, rows[..|rows| - 1], cols, mark, matching) + RowCount(grid, rows[|rows| - 1], cols, mark, matching)
  }

  /** The integer pair S / H of the score: S the neighbours (the homeowner
      included) with the homeowner's mark, H the occupied homes of the
      neighbourhood. */
  datatype Score = Score(similar: int, occupied: int)

  /** The neighbourhood's rows, or columns, for radius R around index c in
      a grid of n rows. */
  function Window(c: int, radius: int, n: int): seq<int> {
    Clip(c - radius, c + radius + 1, n - 1)
  }

  /** The window of a positive radius around an index of the grid stays
      inside the grid and holds that index. */
  lemma WindowHolds(c: int, radius: int, n: int)
    requires 0 <= c < n && radius > 0
    ensures forall i :: 0 <= i < |Window(c, radius, n)| ==> 0 <= Window(c, radius, n)[i] < n
    ensures 0 <= c - Max(c - radius, 0) < |Window(c, radius, n)|
    ensures Window(c, radius, n)[c - Max(c - radius, 0)] == c
  {
  }

  /** Python's truth value of a string: `"R"` on its own, as in the
      condition of line 76, is true. */
  predicate Truthy(s: string) {
    |s| > 0
  }

  /** The counting loops of lines 74-82 over the cells rows x cols. */
  method CountNeighbours(grid: array2<string>, rows: seq<int>, cols: seq<int>, centre: string)
    returns (s: int, h: int)
    requires forall i :: 0 <= i < |rows| ==> 0 <= rows[i] < grid.Length0
    requires forall j :: 0 <= j < |cols| ==> 0 <= cols[j] < grid.Length1
    ensures s == GridCount(grid, rows, cols, centre, true)
    ensures h == GridCount(grid, rows, cols, Open, false)
  {
    s, h := 0, 0;
    for i := 0 to |rows|
      invariant s == GridCount(grid, rows[..i], cols, centre, true)
      invariant h == GridCount(grid, rows[..i], cols, Open, false)
    {
      var x := rows[i];
      ghost var s0, h0 := s, h;
      for j := 0 to |cols|
        invariant s == s0 + RowCount(grid, x, cols[..j], centre, true)
        invariant h == h0 + RowCount(grid, x, cols[..j], Open, false)
      {
        var y := cols[j];
        assert cols[..j + 1][..j] == cols[..j];
        if grid[x, y] == Blue || Truthy(Red) {
          h := h + 1;
        }
        if grid[x, y] == Open {
          h := h - 1;
        }
        if centre == grid[x, y] {
          s := s + 1;
        }
      }
      assert cols[..|cols|] == cols;
      assert rows[..i + 1][..i] == rows[..i];
    }
    assert rows[..|rows|] == rows;
  }

  /** A cell counted for the homeowner's mark is an occupied home. */
  lemma {:induction false} RowCountSimilarOccupied(grid: array2<string>, x: int, cols: seq<int>, mark: string)
    requires 0 <= x < grid.Length0
    requires forall j :: 0 <= j < |cols| ==> 0 <= cols[j] < grid.Length1
    requires mark != Open
    decreases |cols|
    ensures RowCount(grid, x, cols, mark, true) <= RowCount(grid, x, cols, Open, false)
  {
    if |cols| > 0 {
      RowCountSimilarOccupied(grid, x, cols[..|cols| - 1], mark);
    }
  }

  lemma {:induction false} GridCountSimilarOccupied(grid: array2<string>, rows: seq<int>, cols: seq<int>, mark: string)
    requires forall i :: 0 <= i < |rows| ==> 0 <= rows[i] < grid.Length0
    requires forall j :: 0 <= j < |cols| ==> 0 <= cols[j] < grid.Length1
    requires mark != Open
    decreases |rows|
    ensures GridCount(grid, rows, cols, mark, true) <= GridCount(grid, rows, cols, Open, false)
  {
    if |rows| > 0 {
      GridCountSimilarOccupied(grid, rows[..|rows| - 1], cols, mark);
      RowCountSimilarOccupied(grid, rows[|rows| - 1], cols, mark);
    }
  }

  /** A row holding the mark at column index j counts it. */
  lemma {:induction false} RowCountHit(grid: array2<string>, x: int, cols: seq<int>, mark: string, j: nat)
    requires 0 <= x < grid.Length0
    requires forall k :: 0 <= k < |cols| ==> 0 <= cols[k] < grid.Length1
    requires j < |cols| && grid[x, cols[j]] == mark
    decreases |cols|
    ensures RowCount(grid, x, cols, mark, true) > 0
  {
    if j < |cols| - 1 {
      RowCountHit(grid, x, cols[..|cols| - 1], mark, j);
    }
  }

  lemma {:induction false} GridCountHit(grid: array2<string>, rows: seq<int>, cols: seq<int>, mark: string, i: nat, j: nat)
    requires forall k :: 0 <= k < |rows| ==> 0 <= rows[k] < grid.Length0
    requires forall k :: 0 <= k < |cols| ==> 0 <= cols[k] < grid.Length1
    requires i < |rows| && j < |cols| && grid[rows[i], cols[j]] == mark
    decreases |rows|
    ensures GridCount(grid, rows, cols, mark, true) > 0
  {
    if i < |rows| - 1 {
      GridCountHit(grid, rows[..|rows| - 1], cols, mark, i, j);
    } else {
      RowCountHit(grid, rows[i], cols, mark, j);
    }
  }

  /** For a homeowner and a positive radius, the homeowner counts among
      the similar neighbours, and every similar neighbour is an occupied
      home: 0 < S <= H, so the score lies in (0, 1]. */
  lemma ScoreBounds(grid: array2<string>, radius: int, location: Location)
    requires grid.Length0 == grid.Length1 && InGrid(grid, location)
    requires grid[location.0, location.1] != Open && radius > 0
    ensures var rows, cols := Window(location.0, radius, grid.Length0), Window(location.1, radius, grid.Length0);
      var centre := grid[location.0, location.1];
      0 < GridCount(grid, rows, cols, centre, true) <= GridCount(grid, rows, cols, Open, false)
  {
    var n := grid.Length0;
    var rows, cols := Window(location.0, radius, n), Window(location.1, radius, n);
    WindowHolds(location.0, radius, n);
    WindowHolds(location.1, radius, n);
    var centre := grid[location.0, location.1];
    GridCountHit(grid, rows, cols, centre, location.0 - Max(location.0 - radius, 0), location.1 - Max(location.1 - radius, 0));
    GridCountSimilarOccupied(grid, rows, cols, centre);
  }

  /** Lines 52-53 and 62-72: the neighbourhood's row and column lists,
      clipped to the grid for a positive radius (with the column bound
      len(grid) - 1 of the rows); a negative radius gives empty ranges. */
  method Neighbourhood(location: Location, radius: int, n: int) returns (rowList: seq<int>, columnList: seq<int>)
    requires 0 <= location.0 < n && 0 <= location.1 < n
    ensures radius > 0 ==> rowList == Window(location.0, radius, n) && columnList == Window(location.1, radius, n)
    ensures radius > 0 ==> forall i :: 0 <= i < |rowList| ==> 0 <= rowList[i] < n
    ensures radius > 0 ==> forall j :: 0 <= j < |columnList| ==> 0 <= columnList[j] < n
    ensures radius < 0 ==> rowList == [] && columnList == []
  {
    var (row, column) := location;
    if radius > 0 {
      rowList := ClipIndices(row - radius, row + radius + 1, n - 1);
      columnList := ClipIndices(column - radius, column + radius + 1, n - 1);
      WindowHolds(row, radius, n);
      WindowHolds(column, radius, n);
    } else {
      rowList, columnList := Range(row - radius, row + radius + 1), Range(column - radius, column + radius + 1);
      if radius < 0 {
        RangeEmpty(row - radius, row + radius + 1);
        RangeEmpty(column - radius, column + radius + 1);
      }
    }
  }

  /** compute_similarity_score (lines 31-86), with the neighbourhood
      clipped as intended (ClipIndices). The score S / H is returned as the
      pair, with 1.0 as 1 / 1; a negative radius leaves both lists empty and
      the division by H = 0 fails. */
  method ComputeSimilarityScore(grid: array2<string>, radius: int, location: Location) returns (r: Result<Score>)
    requires grid.Length0 == grid.Length1
    requires InGrid(grid, location) && UnoccupiedHome(grid, location) == Some(true)
    ensures radius == 0 ==> r == Success(Score(1, 1))
    ensures radius < 0 ==> r == Failure(ZeroDivision)
    ensures radius > 0 ==>
      var rows, cols := Window(location.0, radius, grid.Length0), Window(location.1, radius, grid.Length0);
      var centre := grid[location.0, location.1];
      r == Success(Score(GridCount(grid, rows, cols, centre, true), GridCount(grid, rows, cols, Open, false)))
  {
    var (row, column) := location;
    var n := grid.Length0;
    if radius == 0 {
      return Success(Score(1, 1));
    }
    var rowList, columnList := Neighbourhood(location, radius, n);
    var centre := grid[row, column];
    var s, h := CountNeighbours(grid, rowList, columnList, centre);
    if radius > 0 {
      ScoreBounds(grid, radius, location);
    }
    if h == 0 {
      r := Failure(ZeroDivision);
    } else {
      r := Success(Score(s, h));
    }
  }
}
