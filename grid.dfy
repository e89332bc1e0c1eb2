/** A fixed-size two-dimensional container addressed by (x, y), where x is the
    column and y the row (mod/grid.py). The enumerations `__iter__` and
    `iterneighbours` depend only on the grid's dimensions, so they are
    functions of (cols, rows); the cells themselves live in an array that
    `Set` and `SetAll` update in place. */
module Grids {

  datatype Coord = Coord(x: int, y: int)

  predicate InBounds(p: Coord, cols: int, rows: int) {
    0 <= p.x < cols && 0 <= p.y < rows
  }

  function Abs(n: int): nat {
    if n < 0 then -n else n
  }

  /** Chebyshev (king-move) distance between two coordinates. */
  function Chebyshev(p: Coord, q: Coord): nat {
    var dx, dy := Abs(p.x - q.x), Abs(p.y - q.y);
    if dx < dy then dy else dx
  }

  /** Row-major order: by row first, then by column. */
  predicate Before(p: Coord, q: Coord) {
    p.y < q.y || (p.y == q.y && p.x < q.x)
  }

  /** No two positions of s are out of row-major order. */
  predicate Sorted(s: seq<Coord>) {
    forall i, j :: 0 <= i < j < |s| ==> Before(s[i], s[j])
  }

  /** Appending a whole row below every coordinate of a sorted sequence keeps it sorted. */
  lemma SortedAppend(a: seq<Coord>, b: seq<Coord>, y: int)
    requires Sorted(a) && Sorted(b)
    requires forall q :: q in a ==> q.y < y
    requires forall q :: q in b ==> q.y == y
    ensures Sorted(a + b)
  {
    forall i, j | 0 <= i < j < |a + b|
      ensures Before((a + b)[i], (a + b)[j])
    {
      if i < |a| && j >= |a| {
        assert (a + b)[i] == a[i] && a[i] in a;
        assert (a + b)[j] == b[j - |a|] && b[j - |a|] in b;
      }
    }
  }

  /** The coordinates (0, y) .. (n - 1, y): the inner loop of `__iter__`. */
  function Row(y: int, n: nat): (r: seq<Coord>)
    ensures |r| == n
    ensures forall q :: q in r <==> q.y == y && 0 <= q.x < n
    ensures Sorted(r)
  {
    if n == 0 then [] else Row(y, n - 1) + [Coord(n - 1, y)]
  }

  /** Every coordinate of a cols x rows grid in the order `__iter__` yields
      them: y in the outer loop, x in the inner loop. Strictly increasing in
      row-major order, so each in-bounds coordinate occurs exactly once. */
  function Coords(cols: nat, rows: nat): (r: seq<Coord>)
    ensures |r| == cols * rows
    ensures forall q :: q in r <==> InBounds(q, cols, rows)
    ensures Sorted(r)
  {
    if rows == 0 then []
    else
      assert (rows - 1) * cols + cols == rows * cols;
      SortedAppend(Coords(cols, rows - 1), Row(rows - 1, cols), rows - 1);
      Coords(cols, rows - 1) + Row(rows - 1, cols)
  }

  /** An enumeration in row-major order never repeats a coordinate. */
  lemma CoordsDistinct(cols: nat, rows: nat, i: int, j: int)
    requires 0 <= i < j < |Coords(cols, rows)|
    ensures Coords(cols, rows)[i] != Coords(cols, rows)[j]
  {
  }

  /** The set of in-bounds coordinates. */
  function CoordSet(cols: nat, rows: nat): (s: set<Coord>)
    ensures forall q :: q in s <==> InBounds(q, cols, rows)
  {
    set x, y | 0 <= x < cols && 0 <= y < rows :: Coord(x, y)
  }

  /** A grid has cols * rows cells. */
  lemma CoordSetCard(cols: nat, rows: nat)
    ensures |CoordSet(cols, rows)| == cols * rows
  {
    var r := Coords(cols, rows);
    forall i, j | 0 <= i < j < |r|
      ensures r[i] != r[j]
    {
      CoordsDistinct(cols, rows, i, j);
    }
    DistinctCard(r);
    assert (set q | q in r) == CoordSet(cols, rows);
  }

  /** The k-th yield of `iterneighbours` (k in 0 .. 7), in the order the
      source lists them: north, south, west, north-west, south-west, east,
      north-east, south-east. */
  function Candidate(p: Coord, k: nat): Coord {
    var x, y := p.x, p.y;
    if k == 0 then Coord(x, y - 1)
    else if k == 1 then Coord(x, y + 1)
    else if k == 2 then Coord(x - 1, y)
    else if k == 3 then Coord(x - 1, y - 1)
    else if k == 4 then Coord(x - 1, y + 1)
    else if k == 5 then Coord(x + 1, y)
    else if k == 6 then Coord(x + 1, y - 1)
    else Coord(x + 1, y + 1)
  }

  /** The step of the cascade that would yield q next to p: the inverse of
      `Candidate` on the eight neighbouring offsets. */
  function Direction(p: Coord, q: Coord): nat {
    var dx, dy := q.x - p.x, q.y - p.y;
    if dx == 0 then (if dy < 0 then 0 else 1)
    else if dx < 0 then (if dy == 0 then 2 else if dy < 0 then 3 else 4)
    else (if dy == 0 then 5 else if dy < 0 then 6 else 7)
  }

  lemma DirectionOfCandidate(p: Coord, k: nat)
    requires k < 8
    ensures Direction(p, Candidate(p, k)) == k
    ensures Chebyshev(p, Candidate(p, k)) == 1
  {
  }

  /** Whether the tests enclosing the k-th yield pass: north and south are
      guarded by one row test each; west and its two diagonals sit inside the
      `x > 0` test, east and its two inside the `x < cols - 1` test. */
  predicate Passes(p: Coord, cols: int, rows: int, k: nat) {
    var x, y := p.x, p.y;
    if k == 0 then y > 0
    else if k == 1 then y < rows - 1
    else if k == 2 then x > 0
    else if k == 3 then x > 0 && y > 0
    else if k == 4 then x > 0 && y < rows - 1
    else if k == 5 then x < cols - 1
    else if k == 6 then x < cols - 1 && y > 0
    else x < cols - 1 && y < rows - 1
  }

  /** One boundary test of the cascade: the coordinate it yields and
      whether its tests pass. */
  datatype Step = Step(pos: Coord, ok: bool)

  /** The eight tests of `iterneighbours` around p, in source order. */
  function Steps(p: Coord, cols: int, rows: int): (s: seq<Step>)
    ensures |s| == 8
    ensures forall k :: 0 <= k < 8 ==> s[k] == Step(Candidate(p, k), Passes(p, cols, rows, k))
  {
    seq(8, k requires 0 <= k < 8 => Step(Candidate(p, k), Passes(p, cols, rows, k)))
  }

  /** What a run of tests yields: the coordinate of every test that passes,
      in order. */
  function Yield(s: seq<Step>): (r: seq<Coord>)
    ensures |r| <= |s|
  {
    if |s| == 0 then [] else (if s[0].ok then [s[0].pos] else []) + Yield(s[1..])
  }

  /** Peels the k-th test off the tests from k on. */
  lemma YieldFrom(p: Coord, cols: int, rows: int, k: nat)
    requires k < 8
    ensures var s := Steps(p, cols, rows);
      Yield(s[k..]) == (if Passes(p, cols, rows, k) then [Candidate(p, k)] else []) + Yield(s[k + 1..])
  {
    var s := Steps(p, cols, rows);
    assert s[k..][1..] == s[k + 1..];
  }

  /** The tests from k on yield only coordinates at distance 1 whose step
      is k or later, in bounds when p is. */
  lemma {:induction false} YieldSound(p: Coord, cols: int, rows: int, k: nat)
    requires k <= 8
    ensures forall q :: q in Yield(Steps(p, cols, rows)[k..]) ==>
      Chebyshev(p, q) == 1 && k <= Direction(p, q) && (InBounds(p, cols, rows) ==> InBounds(q, cols, rows))
    decreases 8 - k
  {
    if k < 8 {
      YieldSound(p, cols, rows, k + 1);
      YieldFrom(p, cols, rows, k);
      DirectionOfCandidate(p, k);
    }
  }

  /** Next to an in-bounds p, the tests from k on yield every in-bounds
      coordinate at distance 1 whose step is k or later. */
  lemma {:induction false} YieldComplete(p: Coord, cols: int, rows: int, k: nat)
    requires k <= 8
    ensures InBounds(p, cols, rows) ==>
      forall q :: InBounds(q, cols, rows) && Chebyshev(p, q) == 1 && k <= Direction(p, q) ==>
        q in Yield(Steps(p, cols, rows)[k..])
    decreases 8 - k
  {
    if k < 8 && InBounds(p, cols, rows) {
      YieldComplete(p, cols, rows, k + 1);
      YieldFrom(p, cols, rows, k);
      forall q | InBounds(q, cols, rows) && Chebyshev(p, q) == 1 && Direction(p, q) == k
        ensures q in Yield(Steps(p, cols, rows)[k..])
      {
        assert Passes(p, cols, rows, k) && q == Candidate(p, k);
      }
    }
  }

  /** The tests yield coordinates in strictly increasing step order, so
      none twice. */
  lemma {:induction false} YieldOrdered(p: Coord, cols: int, rows: int, k: nat)
    requires k <= 8
    ensures forall i, j :: 0 <= i < j < |Yield(Steps(p, cols, rows)[k..])| ==>
      Direction(p, Yield(Steps(p, cols, rows)[k..])[i]) < Direction(p, Yield(Steps(p, cols, rows)[k..])[j])
    decreases 8 - k
  {
    if k < 8 {
      YieldOrdered(p, cols, rows, k + 1);
      YieldSound(p, cols, rows, k + 1);
      YieldFrom(p, cols, rows, k);
      DirectionOfCandidate(p, k);
    }
  }

  /** All eight tests together yield exactly the in-bounds coordinates at
      distance 1 from an in-bounds p, each once. */
  lemma YieldAll(p: Coord, cols: int, rows: int)
    ensures forall i :: 0 <= i < |Yield(Steps(p, cols, rows))| ==>
      Chebyshev(p, Yield(Steps(p, cols, rows))[i]) == 1
    ensures forall i, j :: 0 <= i < j < |Yield(Steps(p, cols, rows))| ==>
      Yield(Steps(p, cols, rows))[i] != Yield(Steps(p, cols, rows))[j]
    ensures InBounds(p, cols, rows) ==>
      forall q :: q in Yield(Steps(p, cols, rows)) <==> InBounds(q, cols, rows) && Chebyshev(p, q) == 1
  {
    var s := Steps(p, cols, rows);
    assert s[0..] == s;
    var r := Yield(s);
    YieldSound(p, cols, rows, 0);
    YieldOrdered(p, cols, rows, 0);
    YieldComplete(p, cols, rows, 0);
    forall i, j | 0 <= i < j < |r|
      ensures r[i] != r[j]
    {
      assert Direction(p, r[i]) < Direction(p, r[j]);
    }
    forall i | 0 <= i < |r|
      ensures Chebyshev(p, r[i]) == 1
    {
      assert r[i] in r;
    }
  }

  /** The in-bounds 8-connected neighbours of p, in the order
      `iterneighbours` yields them. */
  function Neighbours(p: Coord, cols: int, rows: int): (r: seq<Coord>)
    ensures forall i :: 0 <= i < |r| ==> Chebyshev(p, r[i]) == 1
    ensures forall i, j :: 0 <= i < j < |r| ==> r[i] != r[j]
    ensures |r| <= 8
    ensures InBounds(p, cols, rows) ==>
      forall q {:trigger q in r} :: q in r <==> InBounds(q, cols, rows) && Chebyshev(p, q) == 1
  {
    YieldAll(p, cols, rows);
    Yield(Steps(p, cols, rows))
  }

  /** A sequence without repetitions has as many elements as its set. */
  lemma {:induction false} DistinctCard(s: seq<Coord>)
    requires forall i, j :: 0 <= i < j < |s| ==> s[i] != s[j]
    ensures |set q | q in s| == |s|
  {
    if |s| > 0 {
      var init := s[..|s| - 1];
      DistinctCard(init);
      assert (set q | q in s) == (set q | q in init) + {s[|s| - 1]};
      assert s[|s| - 1] !in init;
    }
  }

  /** A repetition-free sequence made of three distinct coordinates, each
      present, has length 3. */
  lemma ThreeDistinct(r: seq<Coord>, a: Coord, b: Coord, c: Coord)
    requires forall i, j :: 0 <= i < j < |r| ==> r[i] != r[j]
    requires a != b && a != c && b != c
    requires a in r && b in r && c in r
    requires forall q :: q in r ==> q == a || q == b || q == c
    ensures |r| == 3
  {
    DistinctCard(r);
    assert (set q | q in r) == {a, b, c};
    assert |{a, b}| == 2;
  }

  /** A corner of a grid at least 2 x 2 has exactly three neighbours. */
  lemma CornerNeighbours(p: Coord, cols: int, rows: int)
    requires cols >= 2 && rows >= 2 && InBounds(p, cols, rows)
    requires (p.x == 0 || p.x == cols - 1) && (p.y == 0 || p.y == rows - 1)
    ensures |Neighbours(p, cols, rows)| == 3
  {
    var r := Neighbours(p, cols, rows);
    var dx := if p.x == 0 then 1 else -1;
    var dy := if p.y == 0 then 1 else -1;
    var a, b, c := Coord(p.x + dx, p.y), Coord(p.x, p.y + dy), Coord(p.x + dx, p.y + dy);
    assert Chebyshev(p, a) == 1 && Chebyshev(p, b) == 1 && Chebyshev(p, c) == 1;
    assert a in r && b in r && c in r;
    forall q | q in r
      ensures q == a || q == b || q == c
    {
      assert InBounds(q, cols, rows) && Chebyshev(p, q) == 1;
      assert q.x == p.x || q.x == p.x + dx;
      assert q.y == p.y || q.y == p.y + dy;
    }
    assert a != b && a != c && b != c;
    ThreeDistinct(r, a, b, c);
  }

  /** The container itself: a list of rows in the source, an array here. */
  class Grid<T> {
    const cells: array2<T>

    /** A width x height grid whose every cell holds `default`. */
    constructor (width: nat, height: nat, default: T)
      ensures Cols() == width && Rows() == height
      ensures Contents() == map q | q in CoordSet(width, height) :: default
      ensures fresh(cells)
    {
      cells := new T[height, width]((_, _) => default);
    }

    function Rows(): nat {
      cells.Length0
    }

    function Cols(): nat {
      cells.Length1
    }

    /** `rows()` is the number of rows: every enumerated coordinate lies
        above it, and the last row is enumerated when the grid has a column. */
    lemma RowsBound()
      ensures forall p | p in Coords(Cols(), Rows()) :: 0 <= p.y < Rows()
      ensures Cols() > 0 && Rows() > 0 ==> Coord(0, Rows() - 1) in Coords(Cols(), Rows())
    {
    }

    /** `cols()` is the number of columns: every enumerated coordinate lies
        left of it, and the last column is enumerated when the grid has a row. */
    lemma ColsBound()
      ensures forall p | p in Coords(Cols(), Rows()) :: 0 <= p.x < Cols()
      ensures Cols() > 0 && Rows() > 0 ==> Coord(Cols() - 1, 0) in Coords(Cols(), Rows())
    {
    }

    /** The number of cells, which is the number of coordinates enumerated. */
    function CellNo(): (n: nat)
      ensures n == |Coords(Cols(), Rows())|
    {
      Cols() * Rows()
    }

    predicate Contains(p: Coord) {
      InBounds(p, Cols(), Rows())
    }

    /** The abstract value of the grid: one value per in-bounds coordinate. */
    ghost function Contents(): (m: map<Coord, T>)
      reads cells
      ensures m.Keys == CoordSet(Cols(), Rows())
    {
      map q | q in CoordSet(Cols(), Rows()) :: cells[q.y, q.x]
    }

    function Get(p: Coord): (v: T)
      requires Contains(p)
      reads cells
      ensures p in Contents() && v == Contents()[p]
    {
      cells[p.y, p.x]
    }

    /** Overwrites the whole value of one cell; every other cell keeps its value. */
    method Set(p: Coord, v: T)
      requires Contains(p)
      modifies cells
      ensures Contents() == old(Contents())[p := v]
    {
      cells[p.y, p.x] := v;
      assert forall q :: q in CoordSet(Cols(), Rows()) && q != p ==>
        Contents()[q] == old(Contents())[q];
    }

    /** Writes `v` into every cell, visiting them in `__iter__` order. */
    method SetAll(v: T)
      modifies cells
      ensures Contents() == map q | q in CoordSet(Cols(), Rows()) :: v
    {
      var tiles := Coords(Cols(), Rows());
      for i := 0 to |tiles|
        invariant forall j :: 0 <= j < i ==> Contents()[tiles[j]] == v
      {
        Set(tiles[i], v);
      }
    }
  }
}
