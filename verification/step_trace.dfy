/**
 * A concrete run of step on a 3 by 2 grid on which the metronome comes to
 * point at an axis with nothing left to grow while the other axis still can
 * grow. The states M0 to M3 are the generator's state after 0 to 3 steps.
 */
module StepTrace {
  import opened MazeModel
  import opened Selection
  import opened MazeCoverage
  import opened MazeEngine

  const U: Cell := Unvisited

  function Ids(row: int, col: int): Cell { Cell(Some(row), Some(col)) }

  /** Row 1 after its head grew to (1, 0). */
  const Row1: Segment := Segment(2, (1, 0), (0, 0), true, false)
  /** Column 2, created at (1, 0) with its head alive. */
  const Col2: Segment := Segment(1, (1, 0), (1, 0), true, false)
  /** Column 1 after its head grew to (0, 1), where it died against the edge. */
  const Col1: Segment := Segment(2, (0, 1), (0, 0), false, false)
  /** Row 2, created at (0, 1) with its head alive. */
  const Row2: Segment := Segment(1, (0, 1), (0, 1), true, false)
  /** Row 2 after its head grew to (1, 1). */
  const Row2Grown: Segment := Segment(2, (1, 1), (0, 1), true, false)
  /** Column 2 after the collateral check at (1, 1) killed its head. */
  const Col2Dead: Segment := Segment(1, (1, 0), (1, 0), false, false)
  /** Column 3, created at (1, 1) with both ends blocked. */
  const Col3: Segment := Segment(1, (1, 1), (1, 1), false, false)

  const M0: Maze := Maze(3, 2, [[Ids(1, 1), U], [U, U], [U, U]], map[1 := Origin], map[1 := Origin], 1, 1)
  const M1: Maze := Maze(3, 2, [[Ids(1, 1), U], [Ids(1, 2), U], [U, U]],
    map[1 := Row1], map[1 := Origin, 2 := Col2], 1, 2)
  const M2: Maze := Maze(3, 2, [[Ids(1, 1), Ids(2, 1)], [Ids(1, 2), U], [U, U]],
    map[1 := Row1, 2 := Row2], map[1 := Col1, 2 := Col2], 2, 2)
  const M3: Maze := Maze(3, 2, [[Ids(1, 1), Ids(2, 1)], [Ids(1, 2), Ids(2, 3)], [U, U]],
    map[1 := Row1, 2 := Row2Grown], map[1 := Col1, 2 := Col2Dead, 3 := Col3], 2, 3)

  /** The initial state of a 3 by 2 grid, and the one row the first step can pick, at its head. */
  lemma Start()
    ensures Seed(3, 2) == M0
    ensures Pool(M0, Row) == [Candidate(1, Origin)] && EndOptions(Origin) == [Head]
  {
    var g := SeedGrid(3, 2);
    assert g[0] == [Ids(1, 1), U];
    assert g[1] == [U, U];
    assert g[2] == [U, U];
    assert g == M0.grid;
  }

  /** Step 1 (rows, choices (0, 0)): row 1 grows its head into (1, 0), creating column 2. */
  lemma FirstStep()
    ensures Rectangular(M0) && 1 in M0.rows && InBounds(M0, NewCell(Origin, Row, Head))
    ensures Extend(M0, Row, 1, Head) == M1
  {
    var g := Grow(M0, Row, 1, Head);
    assert g.grid == Write(M0.grid, (1, 0), Ids(1, 2));
    assert M0.grid[1][0 := Ids(1, 2)] == [Ids(1, 2), U];
    assert M0.grid[1 := [Ids(1, 2), U]] == M1.grid;
    assert g.rows == M1.rows;
    assert g.cols == M1.cols;
  }

  /** Step 2 draws from the columns: column 1 (the origin) and column 2, in that order. */
  lemma FirstPool()
    ensures Pool(M1, Col) == [Candidate(1, Origin), Candidate(2, Col2)]
  {
    FirstPopulation();
    RankPair(Candidate(1, Origin), Candidate(2, Col2));
  }

  lemma FirstPopulation()
    ensures Population(M1, Col) == [Candidate(1, Origin), Candidate(2, Col2)]
  {
    var mp := map[1 := Origin, 2 := Col2];
    assert M1.cols == mp;
    assert AliveIn(mp, 0) == [];
    assert AliveIn(mp, 1) == [Candidate(1, Origin)];
    assert AliveIn(mp, 2) == [Candidate(1, Origin), Candidate(2, Col2)];
  }

  /** Two candidates already in order of deviation are ranked as they are. */
  lemma RankPair(c1: Candidate, c2: Candidate)
    requires Deviation(c1) <= Deviation(c2)
    ensures Rank([c1, c2]) == [c1, c2]
  {
    assert [c1, c2][1..] == [c2];
    assert Rank([c2]) == [c2];
  }

  /** Column 1 after its head grew to (0, 1), before the ahead check. */
  const Col1Grown: Segment := Segment(2, (0, 1), (0, 0), true, false)
  const G2: Maze := M2.(cols := map[1 := Col1Grown, 2 := Col2])

  lemma SecondGrow()
    ensures Rectangular(M1) && 1 in M1.cols && M1.cols[1] == Origin && InBounds(M1, NewCell(Origin, Col, Head))
    ensures Grow(M1, Col, 1, Head) == G2
  {
    var g := Grow(M1, Col, 1, Head);
    assert g.grid == Write(M1.grid, (0, 1), Ids(2, 1));
    assert M1.grid[0][1 := Ids(2, 1)] == [Ids(1, 1), Ids(2, 1)];
    assert M1.grid[0 := [Ids(1, 1), Ids(2, 1)]] == M2.grid;
  }

  lemma SecondAhead()
    ensures AheadRule(G2, Col, 1, Head, (0, 2)) == M2
  {
    assert !InBounds(G2, (0, 2));
    assert G2.cols[1 := Kill(Col1Grown, Head)] == M2.cols;
  }

  lemma SecondCollateral()
    ensures Collateral(M2, Col, (0, 1), 2) == M2
  {
    assert At(M2, (1, 1)) == U;
    assert Collateral(M2, Col, (0, 1), 1) == M2;
  }

  /** Step 2 (columns, choices (0, 0)): column 1 grows its head into (0, 1), creating row 2, and dies at the edge. */
  lemma SecondStep()
    ensures Rectangular(M1) && 1 in M1.cols && M1.cols[1] == Origin && InBounds(M1, NewCell(Origin, Col, Head))
    ensures Extend(M1, Col, 1, Head) == M2
  {
    SecondGrow();
    SecondAhead();
    SecondCollateral();
  }

  /** Step 3 draws from the rows: row 1 and row 2, in that order. */
  lemma SecondPool()
    ensures Pool(M2, Row) == [Candidate(1, Row1), Candidate(2, Row2)]
  {
    SecondPopulation();
    RankPair(Candidate(1, Row1), Candidate(2, Row2));
  }

  lemma SecondPopulation()
    ensures Population(M2, Row) == [Candidate(1, Row1), Candidate(2, Row2)]
  {
    var mp := map[1 := Row1, 2 := Row2];
    assert M2.rows == mp;
    assert AliveIn(mp, 0) == [];
    assert AliveIn(mp, 1) == [Candidate(1, Row1)];
    assert AliveIn(mp, 2) == [Candidate(1, Row1), Candidate(2, Row2)];
  }

  /** The grid after the third step, with column 2 still alive at its head. */
  const G3: Maze := M3.(cols := map[1 := Col1, 2 := Col2, 3 := Col3])

  lemma ThirdGrow()
    ensures Rectangular(M2) && 2 in M2.rows && M2.rows[2] == Row2 && InBounds(M2, NewCell(Row2, Row, Head))
    ensures Grow(M2, Row, 2, Head) == G3
  {
    var g := Grow(M2, Row, 2, Head);
    assert NewSegment(M2, Col, (1, 1)) == Col3;
    assert g.grid == Write(M2.grid, (1, 1), Ids(2, 3));
    assert M2.grid[1][1 := Ids(2, 3)] == [Ids(1, 2), Ids(2, 3)];
    assert M2.grid[1 := [Ids(1, 2), Ids(2, 3)]] == M3.grid;
  }

  lemma ThirdAhead()
    ensures AheadRule(G3, Row, 2, Head, (2, 1)) == G3
  {
    assert At(G3, (2, 1)) == U;
  }

  lemma ThirdCollateral()
    ensures Collateral(G3, Row, (1, 1), 2) == M3
  {
    assert !InBounds(G3, (1, 2));
    assert Collateral(G3, Row, (1, 1), 1) == G3;
    assert At(G3, (1, 0)) == Ids(1, 2);
    assert G3.cols[2 := Kill(Col2, Head)] == M3.cols;
  }

  /**
   * Step 3 (rows, choices (1, 0)): row 2 grows its head into (1, 1), creating
   * the dead column 3; the collateral check kills the head of column 2 below.
   */
  lemma ThirdStep()
    ensures Rectangular(M2) && 2 in M2.rows && M2.rows[2] == Row2 && InBounds(M2, NewCell(Row2, Row, Head))
    ensures Extend(M2, Row, 2, Head) == M3
  {
    ThirdGrow();
    ThirdAhead();
    ThirdCollateral();
  }

  /** After step 3 no column has an alive end, while both rows do. */
  lemma ThirdPool()
    ensures Pool(M3, Col) == []
    ensures Population(M3, Row) == [Candidate(1, Row1), Candidate(2, Row2Grown)]
  {
    var cs := map[1 := Col1, 2 := Col2Dead, 3 := Col3];
    assert M3.cols == cs;
    assert AliveIn(cs, 0) == [];
    assert AliveIn(cs, 1) == [];
    assert AliveIn(cs, 2) == [];
    assert AliveIn(cs, 3) == [];
    var rs := map[1 := Row1, 2 := Row2Grown];
    assert M3.rows == rs;
    assert AliveIn(rs, 0) == [];
    assert AliveIn(rs, 1) == [Candidate(1, Row1)];
    assert AliveIn(rs, 2) == [Candidate(1, Row1), Candidate(2, Row2Grown)];
  }

  /**
   * After three steps on a 3 by 2 grid the metronome names the columns, where
   * no segment can grow, while rows 1 and 2 can still grow at their heads and
   * the cells (2, 0) and (2, 1) are unvisited. Step as written reports done
   * exactly when the metronome's pool is empty and then leaves the metronome
   * as it is, so from here every call reports done on an incomplete maze.
   */
  lemma StopsEarly()
    ensures |Pool(M3, Turn(1))| == 0
    ensures IsAlive(M3.rows[1], Head) && IsAlive(M3.rows[2], Head)
    ensures (2, 0) !in VisitedCells(M3) && (2, 1) !in VisitedCells(M3)
    ensures VisitedCells(M3) != AllCells(M3.width, M3.height)
  {
    ThirdPool();
    ThirdUnvisited();
  }

  /** The column x = 2 is still unvisited after step 3. */
  lemma ThirdUnvisited()
    ensures Rectangular(M3)
    ensures (2, 0) !in VisitedCells(M3) && (2, 1) !in VisitedCells(M3)
    ensures VisitedCells(M3) != AllCells(M3.width, M3.height)
  {
    assert (2, 0) in AllCells(3, 2);
  }

  /** Each state of the run is one the engine may be in. */
  lemma FirstTracked()
    ensures Tracked(M1)
  {
    Start();
    SeedTracked(3, 2);
    FirstStep();
    ExtendTracked(M0, Row, 1, Head);
  }

  lemma SecondTracked()
    ensures Tracked(M2)
  {
    FirstTracked();
    SecondStep();
    ExtendTracked(M1, Col, 1, Head);
  }

  lemma ThirdTracked()
    ensures Tracked(M3)
  {
    SecondTracked();
    ThirdStep();
    ExtendTracked(M2, Row, 2, Head);
  }

  /**
   * The corrected step on the same state goes on: it turns to the rows,
   * which still have candidates, and it is not done, since cells remain
   * unvisited.
   */
  lemma FallbackContinues()
    ensures FallbackTurn(M3, 1) == Row
    ensures Pool(M3, Row) == [Candidate(1, Row1), Candidate(2, Row2Grown)]
    ensures VisitedCells(M3) != AllCells(M3.width, M3.height)
  {
    ThirdPool();
    RankPair(Candidate(1, Row1), Candidate(2, Row2Grown));
    ThirdUnvisited();
  }
}
