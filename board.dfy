/** The minefield as a value: each cell is the 4-tuple
    (mined, uncovered, adjacent-count, flagged) of field.py, and a board maps
    every in-bounds coordinate to its cell. The Field class in module
    Minefield keeps its cells in a Grid; the predicates and lemmas here state
    what its operations keep true of the board that grid holds. */
module Boards {
  import opened Grids

  datatype Cell = Cell(mined: bool, uncovered: bool, adjacent: int, flagged: bool)

  /** The value every cell holds before the first click: (0, 0, 0, 0). */
  const Blank := Cell(false, false, 0, false)

  /** The value a cell gets when a mine is placed on it: (1, 0, 0, 0). */
  const MineCell := Cell(true, false, 0, false)

  type Board = map<Coord, Cell>

  ghost function Mines(b: Board): set<Coord> {
    set q | q in b && b[q].mined
  }

  ghost function FlaggedMines(b: Board): set<Coord> {
    set q | q in b && b[q].mined && b[q].flagged
  }

  ghost function Covered(b: Board): set<Coord> {
    set q | q in b && !b[q].uncovered
  }

  /** How many elements of s belong to m, counted the way the adjacency loop
      of `initialize` counts mined neighbours. */
  function CountIn(s: seq<Coord>, m: set<Coord>): (n: nat)
    ensures n <= |s|
  {
    if |s| == 0 then 0
    else CountIn(s[..|s| - 1], m) + (if s[|s| - 1] in m then 1 else 0)
  }

  /** Counting one element further adds one exactly when it belongs to m. */
  lemma CountInStep(s: seq<Coord>, j: nat, m: set<Coord>)
    requires j < |s|
    ensures CountIn(s[..j + 1], m) == CountIn(s[..j], m) + (if s[j] in m then 1 else 0)
  {
    assert s[..j + 1][..j] == s[..j];
  }

  /** The count is zero exactly when no element of s belongs to m. */
  lemma {:induction false} CountInZero(s: seq<Coord>, m: set<Coord>)
    ensures CountIn(s, m) == 0 <==> forall i :: 0 <= i < |s| ==> s[i] !in m
  {
    if |s| > 0 {
      var init := s[..|s| - 1];
      CountInZero(init, m);
      assert forall i :: 0 <= i < |init| ==> init[i] == s[i];
    }
  }

  /** On a sequence without repetitions the count is the number of its
      elements that belong to m. */
  lemma {:induction false} CountInCard(s: seq<Coord>, m: set<Coord>)
    requires forall i, j :: 0 <= i < j < |s| ==> s[i] != s[j]
    ensures CountIn(s, m) == |Elems(s) * m|
  {
    if |s| > 0 {
      var n := |s| - 1;
      CountInCard(s[..n], m);
      ElemsStep(s, n);
      assert s[..n + 1] == s;
      assert s[n] !in Elems(s[..n]);
      if s[n] in m {
        assert Elems(s) * m == Elems(s[..n]) * m + {s[n]};
      } else {
        assert Elems(s) * m == Elems(s[..n]) * m;
      }
    }
  }

  /** A flag only ever sits on a covered cell, and no mine is uncovered. */
  ghost predicate WellFormed(b: Board) {
    forall q | q in b :: b[q].uncovered ==> !b[q].flagged && !b[q].mined
  }

  /** Every safe cell holds the number of mines among its neighbours. */
  ghost predicate Counted(b: Board, cols: int, rows: int) {
    forall q | q in b && !b[q].mined ::
      b[q].adjacent == CountIn(Neighbours(q, cols, rows), Mines(b))
  }

  /** On a counted board the number in a safe cell is how many of its
      neighbours are mined. */
  lemma CountedMeaning(b: Board, q: Coord, cols: int, rows: int)
    requires Counted(b, cols, rows) && q in b && !b[q].mined
    ensures b[q].adjacent == |Elems(Neighbours(q, cols, rows)) * Mines(b)|
  {
    CountInCard(Neighbours(q, cols, rows), Mines(b));
  }

  /** Every neighbour of q is uncovered. */
  ghost predicate Closed(b: Board, q: Coord, cols: int, rows: int) {
    forall n | n in Neighbours(q, cols, rows) :: n in b && b[n].uncovered
  }

  /** The uncovered safe cells with no adjacent mine that still have a
      covered neighbour: the cells a flood fill has not finished with. */
  ghost function Open(b: Board, cols: int, rows: int): set<Coord> {
    set q | q in b && b[q].uncovered && !b[q].mined && b[q].adjacent == 0
                   && !Closed(b, q, cols, rows)
  }

  /** The in-bounds cells within Chebyshev distance 2 of c: the clicked cell,
      its neighbours and theirs. */
  ghost function TwoRing(c: Coord, cols: nat, rows: nat): set<Coord> {
    set q | q in CoordSet(cols, rows) && Chebyshev(c, q) <= 2
  }

  /** The 5 x 5 block of coordinates centred on c, row by row. */
  function Block(c: Coord): (s: seq<Coord>)
    ensures |s| == 25
  {
    seq(25, i requires 0 <= i < 25 => Coord(c.x + i % 5 - 2, c.y + i / 5 - 2))
  }

  /** A sequence has no more distinct elements than positions. */
  lemma {:induction false} ElemsCard(s: seq<Coord>)
    ensures |Elems(s)| <= |s|
  {
    if |s| > 0 {
      var n := |s| - 1;
      ElemsCard(s[..n]);
      ElemsStep(s, n);
      assert s[..n + 1] == s;
    }
  }

  /** The first click exempts at most 25 cells. */
  lemma TwoRingCard(c: Coord, cols: nat, rows: nat)
    ensures |TwoRing(c, cols, rows)| <= 25
  {
    var s := Block(c);
    forall q | q in TwoRing(c, cols, rows)
      ensures q in Elems(s)
    {
      var a, b := q.x - c.x + 2, q.y - c.y + 2;
      assert 0 <= a < 5 && 0 <= b < 5;
      var i := b * 5 + a;
      assert i % 5 == a && i / 5 == b;
      assert s[i] == q;
    }
    ElemsCard(s);
    SubsetCard(TwoRing(c, cols, rows), Elems(s));
  }

  lemma ChebyshevTriangle(a: Coord, b: Coord, c: Coord)
    ensures Chebyshev(a, c) <= Chebyshev(a, b) + Chebyshev(b, c)
  {
  }

  /** The unit step from 0 towards d. */
  function Toward(d: int): int {
    if d < 0 then -1 else if d > 0 then 1 else 0
  }

  /** Every in-bounds cell at distance 2 from c is a neighbour of a
      neighbour of c: the one-step move from c towards it is in bounds. */
  lemma TwoRingStep(c: Coord, q: Coord, cols: int, rows: int)
    requires InBounds(c, cols, rows) && InBounds(q, cols, rows) && Chebyshev(c, q) == 2
    ensures exists m :: m in Neighbours(c, cols, rows) && q in Neighbours(m, cols, rows)
  {
    var m := Coord(c.x + Toward(q.x - c.x), c.y + Toward(q.y - c.y));
    assert m in Neighbours(c, cols, rows);
    assert q in Neighbours(m, cols, rows);
  }

  /** The elements of a sequence of coordinates, as a set. */
  function Elems(s: seq<Coord>): set<Coord> {
    set q | q in s
  }

  /** The elements of a prefix grow one at a time. */
  lemma ElemsStep(s: seq<Coord>, i: nat)
    requires i < |s|
    ensures Elems(s[..i + 1]) == Elems(s[..i]) + {s[i]}
  {
    assert s[..i + 1] == s[..i] + [s[i]];
  }

  /** Every neighbour of one of the first n cells of ns. */
  ghost function Reach(ns: seq<Coord>, n: nat, cols: int, rows: int): set<Coord>
    requires n <= |ns|
  {
    if n == 0 then {}
    else Reach(ns, n - 1, cols, rows) + Elems(Neighbours(ns[n - 1], cols, rows))
  }

  lemma {:induction false} ReachMember(ns: seq<Coord>, n: nat, q: Coord, cols: int, rows: int)
    requires n <= |ns|
    ensures q in Reach(ns, n, cols, rows) <==> exists j :: 0 <= j < n && q in Neighbours(ns[j], cols, rows)
  {
    if n > 0 {
      ReachMember(ns, n - 1, q, cols, rows);
      var last := Neighbours(ns[n - 1], cols, rows);
      assert Reach(ns, n, cols, rows) == Reach(ns, n - 1, cols, rows) + Elems(last);
      if q in Elems(last) {
        assert 0 <= n - 1 < n && q in Neighbours(ns[n - 1], cols, rows);
      }
      if exists j :: 0 <= j < n && q in Neighbours(ns[j], cols, rows) {
        var j :| 0 <= j < n && q in Neighbours(ns[j], cols, rows);
        if j == n - 1 {
          assert q in Elems(last);
        }
      }
    }
  }

  /** A neighbour of a neighbour of an in-bounds c is in bounds and within distance 2. */
  lemma ReachWithinTwo(c: Coord, q: Coord, cols: nat, rows: nat)
    requires InBounds(c, cols, rows)
    requires var ns := Neighbours(c, cols, rows); q in Reach(ns, |ns|, cols, rows)
    ensures q in TwoRing(c, cols, rows)
  {
    var ns := Neighbours(c, cols, rows);
    ReachMember(ns, |ns|, q, cols, rows);
    var j :| 0 <= j < |ns| && q in Neighbours(ns[j], cols, rows);
    var m := ns[j];
    assert m in ns;
    assert InBounds(m, cols, rows) && Chebyshev(c, m) == 1;
    assert InBounds(q, cols, rows) && Chebyshev(m, q) == 1;
    ChebyshevTriangle(c, m, q);
  }

  /** An in-bounds cell at distance 2 of c is a neighbour of a neighbour of c. */
  lemma TwoInReach(c: Coord, q: Coord, cols: nat, rows: nat)
    requires InBounds(c, cols, rows) && InBounds(q, cols, rows) && Chebyshev(c, q) == 2
    ensures var ns := Neighbours(c, cols, rows); q in Reach(ns, |ns|, cols, rows)
  {
    var ns := Neighbours(c, cols, rows);
    TwoRingStep(c, q, cols, rows);
    var m :| m in ns && q in Neighbours(m, cols, rows);
    var j :| 0 <= j < |ns| && ns[j] == m;
    ReachMember(ns, |ns|, q, cols, rows);
  }

  lemma ZoneWithinTwo(c: Coord, cols: nat, rows: nat)
    requires InBounds(c, cols, rows)
    ensures var ns := Neighbours(c, cols, rows);
      {c} + Elems(ns) + Reach(ns, |ns|, cols, rows) <= TwoRing(c, cols, rows)
  {
    var ns := Neighbours(c, cols, rows);
    forall q | q in Reach(ns, |ns|, cols, rows)
      ensures q in TwoRing(c, cols, rows)
    {
      ReachWithinTwo(c, q, cols, rows);
    }
  }

  lemma TwoWithinZone(c: Coord, cols: nat, rows: nat)
    requires InBounds(c, cols, rows)
    ensures var ns := Neighbours(c, cols, rows);
      TwoRing(c, cols, rows) <= {c} + Elems(ns) + Reach(ns, |ns|, cols, rows)
  {
    var ns := Neighbours(c, cols, rows);
    forall q | q in TwoRing(c, cols, rows)
      ensures q in {c} + Elems(ns) + Reach(ns, |ns|, cols, rows)
    {
      assert InBounds(q, cols, rows);
      if Chebyshev(c, q) == 0 {
        assert q == c;
      } else if Chebyshev(c, q) == 1 {
        assert q in ns;
      } else {
        TwoInReach(c, q, cols, rows);
      }
    }
  }

  /** The clicked cell, its neighbours and their neighbours are exactly the
      in-bounds cells within distance 2 of it. */
  lemma TwoRingIsReach(c: Coord, cols: nat, rows: nat)
    requires InBounds(c, cols, rows)
    ensures var ns := Neighbours(c, cols, rows);
      {c} + Elems(ns) + Reach(ns, |ns|, cols, rows) == TwoRing(c, cols, rows)
  {
    ZoneWithinTwo(c, cols, rows);
    TwoWithinZone(c, cols, rows);
  }

  /** A subset smaller than its superset leaves some element out. */
  lemma PickOutside<A>(placed: set<A>, eligible: set<A>)
    requires placed <= eligible && |placed| < |eligible|
    ensures exists c :: c in eligible && c !in placed
  {
    if eligible <= placed {
      SubsetCard(eligible, placed);
    }
  }

  /** b1 arises from b0 by uncovering (and unflagging) covered cells only. */
  ghost predicate Revealing(b0: Board, b1: Board) {
    b1.Keys == b0.Keys &&
    forall q | q in b0 ::
      b1[q] == b0[q] ||
      (!b0[q].uncovered && b1[q] == b0[q].(uncovered := true, flagged := false))
  }

  lemma RevealingTransitive(b0: Board, b1: Board, b2: Board)
    requires Revealing(b0, b1) && Revealing(b1, b2)
    ensures Revealing(b0, b2)
  {
  }

  /** A reveal never adds a covered cell. */
  lemma RevealingCovered(b0: Board, b1: Board)
    requires Revealing(b0, b1)
    ensures Covered(b1) <= Covered(b0) && |Covered(b1)| <= |Covered(b0)|
  {
    SubsetCard(Covered(b1), Covered(b0));
  }

  /** Every cell of s is on the board and uncovered. */
  ghost predicate Uncovered(b: Board, s: set<Coord>) {
    forall q | q in s :: q in b && b[q].uncovered
  }

  /** A reveal never covers a cell again. */
  lemma UncoveredStays(b0: Board, b1: Board, s: set<Coord>)
    requires Revealing(b0, b1) && Uncovered(b0, s)
    ensures Uncovered(b1, s)
  {
  }

  /** The board after uncovering (and unflagging) p, as `click` and
      `forestfires` write it. */
  function Revealed(b: Board, p: Coord): Board
    requires p in b
  {
    b[p := b[p].(uncovered := true, flagged := false)]
  }

  /** The board after toggling the flag of p. */
  function Toggled(b: Board, p: Coord): Board
    requires p in b
  {
    b[p := b[p].(flagged := !b[p].flagged)]
  }

  /** A reveal never sets a flag. */
  lemma RevealingUnflagged(b0: Board, b1: Board)
    requires Revealing(b0, b1) && forall q | q in b0 :: !b0[q].flagged
    ensures forall q | q in b1 :: !b1[q].flagged
  {
  }

  /** Flagging one cell of a board with nothing uncovered or flagged leaves
      every other cell covered and unflagged. */
  lemma ToggledCovered(b: Board, p: Coord)
    requires p in b && forall q | q in b :: !b[q].uncovered && !b[q].flagged
    ensures forall q | q in Toggled(b, p) && q != p ::
      !Toggled(b, p)[q].uncovered && !Toggled(b, p)[q].flagged
  {
  }

  /** Flagging a cell twice leaves the board as it was. */
  lemma ToggledTwice(b: Board, p: Coord)
    requires p in b
    ensures p in Toggled(b, p) && Toggled(Toggled(b, p), p) == b
  {
    assert forall q | q in b :: Toggled(Toggled(b, p), p)[q] == b[q];
  }

  /** Uncovering one covered cell is a reveal that removes exactly that cell
      from the covered set. */
  lemma RevealOne(b: Board, p: Coord)
    requires p in b && !b[p].uncovered
    ensures Revealing(b, Revealed(b, p))
    ensures Covered(Revealed(b, p)) == Covered(b) - {p}
    ensures |Covered(Revealed(b, p))| == |Covered(b)| - 1
  {
    var b1 := Revealed(b, p);
    assert forall q :: q in Covered(b1) <==> q in Covered(b) - {p};
    assert p in Covered(b);
  }

  /** A reveal that uncovers no mine leaves the mines, the flagged mines and
      the covered set where they were, and keeps the board well formed and
      counted. */
  lemma RevealKeeps(b0: Board, b1: Board, cols: int, rows: int)
    requires Revealing(b0, b1) && WellFormed(b0)
    requires forall q | q in b1 :: b1[q].uncovered ==> !b1[q].mined
    ensures WellFormed(b1)
    ensures Mines(b1) == Mines(b0) && FlaggedMines(b1) == FlaggedMines(b0)
    ensures Covered(b1) <= Covered(b0)
    ensures Counted(b0, cols, rows) ==> Counted(b1, cols, rows)
  {
    assert forall q :: q in Mines(b1) <==> q in Mines(b0);
    assert forall q :: q in FlaggedMines(b1) <==> q in FlaggedMines(b0);
  }

  /** Toggling the flag of a covered cell keeps the board well formed,
      counted and with the same open cells, and moves the number of flagged
      mines by one exactly when the cell is mined. */
  lemma FlagToggle(b: Board, p: Coord, cols: int, rows: int)
    requires p in b && !b[p].uncovered && WellFormed(b)
    ensures WellFormed(Toggled(b, p))
    ensures Mines(Toggled(b, p)) == Mines(b)
    ensures |FlaggedMines(Toggled(b, p))| ==
      |FlaggedMines(b)| + (if !b[p].mined then 0 else if b[p].flagged then -1 else 1)
    ensures Counted(b, cols, rows) ==> Counted(Toggled(b, p), cols, rows)
  {
    var b1 := Toggled(b, p);
    assert forall q :: q in Mines(b1) <==> q in Mines(b);
    if !b[p].mined {
      assert forall q :: q in FlaggedMines(b1) <==> q in FlaggedMines(b);
      assert FlaggedMines(b1) == FlaggedMines(b);
    } else if b[p].flagged {
      assert FlaggedMines(b1) == FlaggedMines(b) - {p};
    } else {
      assert FlaggedMines(b1) == FlaggedMines(b) + {p};
    }
  }

  /** A flag changes no cell's uncovered state, so the open cells stay. */
  lemma ToggleKeepsOpen(b: Board, p: Coord, cols: int, rows: int)
    requires p in b
    ensures Open(Toggled(b, p), cols, rows) == Open(b, cols, rows)
  {
    var b1 := Toggled(b, p);
    forall q
      ensures q in Open(b1, cols, rows) <==> q in Open(b, cols, rows)
    {
      if q in b {
        SameCoverClosed(b, b1, q, cols, rows);
      }
    }
  }

  /** Whether q is closed depends only on which cells are uncovered. */
  lemma SameCoverClosed(b0: Board, b1: Board, q: Coord, cols: int, rows: int)
    requires b1.Keys == b0.Keys && forall n | n in b0 :: b1[n].uncovered == b0[n].uncovered
    ensures Closed(b1, q, cols, rows) == Closed(b0, q, cols, rows)
  {
  }

  /** A safe cell whose count is 0 has no mined neighbour. */
  lemma ZeroCountNoMine(b: Board, q: Coord, n: Coord, cols: int, rows: int)
    requires Counted(b, cols, rows)
    requires q in b && !b[q].mined && b[q].adjacent == 0
    requires n in Neighbours(q, cols, rows)
    ensures n !in Mines(b)
  {
    var nbs := Neighbours(q, cols, rows);
    var i :| 0 <= i < |nbs| && nbs[i] == n;
    CountInZero(nbs, Mines(b));
  }

  /** Every mine is flagged exactly when as many mines are flagged as there
      are mines: the win test `correctsquares == minesno` in board terms. */
  lemma {:induction false} AllMinesFlagged(b: Board)
    ensures |FlaggedMines(b)| == |Mines(b)| <==> forall q | q in Mines(b) :: b[q].flagged
  {
    var f, m := FlaggedMines(b), Mines(b);
    assert f <= m;
    if |f| == |m| {
      if exists q :: q in m && q !in f {
        var q :| q in m && q !in f;
        SubsetCard(f, m - {q});
        assert false;
      }
    } else {
      assert f != m;
      var q :| q in m && q !in f;
    }
  }

  /** A subset is no larger than its superset. */
  lemma {:induction false} SubsetCard<A>(s: set<A>, t: set<A>)
    requires s <= t
    ensures |s| <= |t|
    decreases s
  {
    if s != {} {
      var a :| a in s;
      SubsetCard(s - {a}, t - {a});
    }
  }

  /** A path whose every step but the last stands on a safe cell with no
      adjacent mine and moves to a neighbour. */
  ghost predicate ZeroPath(b: Board, path: seq<Coord>, cols: int, rows: int) {
    |path| >= 1 &&
    forall i :: 0 <= i < |path| - 1 ==>
      path[i] in b && !b[path[i]].mined && b[path[i]].adjacent == 0 &&
      path[i + 1] in Neighbours(path[i], cols, rows)
  }

  /** Flood-fill closure: on a board with no open cell, everything reachable
      from an uncovered cell through safe zero-count cells is uncovered. That
      is the whole zero-count region around it and the numbered cells that
      border it. */
  lemma {:induction false} ZeroRegionUncovered(b: Board, path: seq<Coord>, cols: int, rows: int)
    requires Open(b, cols, rows) == {}
    requires ZeroPath(b, path, cols, rows) && path[0] in b && b[path[0]].uncovered
    ensures path[|path| - 1] in b && b[path[|path| - 1]].uncovered
    decreases |path|
  {
    if |path| > 1 {
      var prefix := path[..|path| - 1];
      assert ZeroPath(b, prefix, cols, rows);
      ZeroRegionUncovered(b, prefix, cols, rows);
      var last := prefix[|prefix| - 1];
      assert last !in Open(b, cols, rows);
      assert path[|path| - 1] in Neighbours(last, cols, rows);
    }
  }

  /** The board after mine placement so far: `mines` hold (1, 0, 0, 0) and
      every other cell is still (0, 0, 0, 0). */
  ghost predicate Laid(b: Board, mines: set<Coord>) {
    forall q | q in b :: b[q] == if q in mines then MineCell else Blank
  }

  lemma LayMine(b: Board, mines: set<Coord>, c: Coord)
    requires Laid(b, mines) && c in b
    ensures Laid(b[c := MineCell], mines + {c})
  {
  }

  /** The board while the counting loop of `initialize` runs: the mines are
      in place, the cells of `done` hold their counts, the rest are blank. */
  ghost predicate Counting(b: Board, mines: set<Coord>, done: set<Coord>, cols: int, rows: int) {
    forall q | q in b ::
      b[q] == if q in mines then MineCell
              else if q in done then Cell(false, false, CountIn(Neighbours(q, cols, rows), mines), false)
              else Blank
  }

  /** The board after `initialize`: mines are (1, 0, 0, 0) and every other
      cell is covered, unflagged and holds the number of its mined neighbours. */
  ghost predicate Dealt(b: Board, cols: int, rows: int) {
    forall q | q in b ::
      b[q] == if q in Mines(b) then MineCell
              else Cell(false, false, CountIn(Neighbours(q, cols, rows), Mines(b)), false)
  }

  /** While counting, the mined cells are exactly the placed mines. */
  lemma CountingMines(b: Board, mines: set<Coord>, done: set<Coord>, cols: int, rows: int)
    requires Counting(b, mines, done, cols, rows) && mines <= b.Keys
    ensures Mines(b) == mines
  {
    assert forall q :: q in Mines(b) <==> q in mines;
  }

  /** Writing the count of one safe cell moves it into `done`. */
  lemma CountingStep(b: Board, mines: set<Coord>, done: set<Coord>, t: Coord, cols: int, rows: int)
    requires Counting(b, mines, done, cols, rows) && t in b && t !in mines
    ensures Counting(b[t := Cell(false, false, CountIn(Neighbours(t, cols, rows), mines), false)],
                     mines, done + {t}, cols, rows)
  {
  }

  /** A mined cell is skipped by the counting loop. */
  lemma CountingSkip(b: Board, mines: set<Coord>, done: set<Coord>, t: Coord, cols: int, rows: int)
    requires Counting(b, mines, done, cols, rows) && t in mines
    ensures Counting(b, mines, done + {t}, cols, rows)
  {
  }

  /** Once every cell is done, the board is dealt. */
  lemma CountingDealt(b: Board, mines: set<Coord>, cols: int, rows: int)
    requires Counting(b, mines, b.Keys, cols, rows) && mines <= b.Keys
    ensures Dealt(b, cols, rows)
  {
    CountingMines(b, mines, b.Keys, cols, rows);
  }

  /** A dealt board has nothing uncovered and nothing flagged, so it is well
      formed, has no flagged mine and no open cell, and is counted. */
  lemma DealtSettled(b: Board, cols: int, rows: int)
    requires Dealt(b, cols, rows)
    ensures forall q | q in b :: !b[q].uncovered && !b[q].flagged
    ensures WellFormed(b) && Counted(b, cols, rows)
    ensures FlaggedMines(b) == {} && Open(b, cols, rows) == {}
  {
  }

  /** On a dealt board whose mines avoid the two-ring of an in-bounds c, the
      cell c is safe and has no mined neighbour. */
  lemma ExemptCount(b: Board, c: Coord, cols: nat, rows: nat)
    requires Dealt(b, cols, rows) && b.Keys == CoordSet(cols, rows) && InBounds(c, cols, rows)
    requires Mines(b) !! TwoRing(c, cols, rows)
    ensures b[c] == Cell(false, false, 0, false)
  {
    assert c in TwoRing(c, cols, rows);
    var ns := Neighbours(c, cols, rows);
    forall i | 0 <= i < |ns|
      ensures ns[i] !in Mines(b)
    {
      assert ns[i] in ns;
      assert ns[i] in TwoRing(c, cols, rows);
    }
    CountInZero(ns, Mines(b));
  }

  /** Every cell that b1 uncovered beyond b0 and that has no adjacent mine
      has all its neighbours uncovered: the flood fill finished with it. */
  ghost predicate Fills(b0: Board, b1: Board, cols: int, rows: int) {
    forall q | q in b0 && q in b1 && !b0[q].uncovered && b1[q].uncovered && b1[q].adjacent == 0 ::
      Closed(b1, q, cols, rows)
  }

  lemma FillsNothing(b: Board, cols: int, rows: int)
    ensures Fills(b, b, cols, rows)
  {
  }

  /** Two fills in a row are one fill. */
  lemma FillsTransitive(b0: Board, b1: Board, b2: Board, cols: int, rows: int)
    requires Revealing(b0, b1) && Fills(b0, b1, cols, rows)
    requires Revealing(b1, b2) && Fills(b1, b2, cols, rows)
    ensures Fills(b0, b2, cols, rows)
  {
    forall q | q in b0 && q in b2 && !b0[q].uncovered && b2[q].uncovered && b2[q].adjacent == 0
      ensures Closed(b2, q, cols, rows)
    {
      if b1[q].uncovered {
        assert Closed(b1, q, cols, rows);
      }
    }
  }

  /** Uncovering a cell that has an adjacent mine needs no further filling. */
  lemma FillsStep(b0: Board, b1: Board, t: Coord, cols: int, rows: int)
    requires Revealing(b0, b1) && Fills(b0, b1, cols, rows)
    requires t in b1 && !b1[t].uncovered && b1[t].adjacent != 0
    ensures Fills(b0, Revealed(b1, t), cols, rows)
  {
    var b2 := Revealed(b1, t);
    forall q | q in b0 && q in b2 && !b0[q].uncovered && b2[q].uncovered && b2[q].adjacent == 0
      ensures Closed(b2, q, cols, rows)
    {
      assert q != t;
      assert Closed(b1, q, cols, rows);
    }
  }

  /** Uncovering a cell t with no adjacent mine and then flood-filling from
      it leaves every newly uncovered zero cell closed. */
  lemma FillsJoin(b0: Board, b1: Board, b3: Board, t: Coord, cols: int, rows: int)
    requires Revealing(b0, b1) && Fills(b0, b1, cols, rows)
    requires t in b1 && !b1[t].uncovered
    requires Revealing(Revealed(b1, t), b3) && Fills(Revealed(b1, t), b3, cols, rows)
    requires Closed(b3, t, cols, rows)
    ensures Fills(b0, b3, cols, rows)
  {
    forall q | q in b0 && q in b3 && !b0[q].uncovered && b3[q].uncovered && b3[q].adjacent == 0
      ensures Closed(b3, q, cols, rows)
    {
      if q != t && b1[q].uncovered {
        assert Closed(b1, q, cols, rows);
      }
    }
  }

  /** A fill that starts from a board with no open cell leaves none. */
  lemma Settle(b0: Board, b1: Board, cols: int, rows: int)
    requires Open(b0, cols, rows) == {}
    requires Revealing(b0, b1) && Fills(b0, b1, cols, rows)
    ensures Open(b1, cols, rows) == {}
  {
    forall q | q in b1 && b1[q].uncovered && !b1[q].mined && b1[q].adjacent == 0
      ensures Closed(b1, q, cols, rows)
    {
      if b0[q].uncovered {
        assert q !in Open(b0, cols, rows);
      }
    }
  }
}
