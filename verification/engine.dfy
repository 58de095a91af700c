/*
 * The generator's global state in main.py (current_rc_ids, maze_grid,
 * rc_dicts, rc_metronome) as one object whose methods update it in place:
 * initialise_new_rc, connect_rc_to_new_cell and step. Each method is proved
 * against the pure model in maze_model.dfy and selection.dfy, and keeps the
 * class invariant Valid(), which carries the model's invariant Inv.
 */
module MazeEngine {
  import opened MazeModel
  import opened Selection
  import opened MazeCoverage

  /** Why connect_rc_to_new_cell refuses: the id is not registered (a KeyError), or the end is dead (a ValueError). */
  datatype Refusal = UnknownSegment | DeadEnd

  datatype Outcome = Connected | Refused(reason: Refusal)

  /**
   * A generator state the engine may be in: a grid of at least 2 by 2 whose
   * registries track it (which includes the model's invariant), and a
   * metronome that is 0 or 1.
   */
  ghost predicate Running(m: Maze, metronome: int) {
    m.width >= 2 && m.height >= 2 && Tracked(m) && (metronome == 0 || metronome == 1)
  }

  /** ht_options: the head if it is alive, then the tail if it is alive. */
  method AliveEnds(s: Segment) returns (options: seq<End>)
    ensures options == EndOptions(s)
  {
    options := [];
    if s.headAlive { options := options + [Head]; }
    if s.tailAlive { options := options + [Tail]; }
  }

  /** The axis a step draws from: columns when the metronome is 1, rows otherwise. */
  function Turn(metronome: int): Axis { if metronome == 1 then Col else Row }

  /** The axis a corrected step draws from: the metronome's axis while it has an alive segment, the other one otherwise. */
  function FallbackTurn(m: Maze, metronome: int): Axis {
    if |Pool(m, Turn(metronome))| > 0 then Turn(metronome) else Other(Turn(metronome))
  }

  /**
   * In a tracked state both populations are empty exactly when every cell
   * of the grid is visited: the condition on which generation has finished.
   */
  lemma PoolsEmptyIffFull(m: Maze)
    requires Tracked(m)
    ensures m.width >= 1 && m.height >= 1
    ensures |Pool(m, Row)| == 0 && |Pool(m, Col)| == 0 <==> VisitedCells(m) == AllCells(m.width, m.height)
  {
    Completeness(m);
    PoolMembers(m, Row);
    PoolMembers(m, Col);
  }

  class Engine {
    const width: int
    const height: int
    /** maze_grid, indexed [x][y]. */
    var grid: seq<seq<Cell>>
    /** rc_dicts["row"] and rc_dicts["col"]. */
    var rows: map<int, Segment>
    var cols: map<int, Segment>
    /** current_rc_ids["row"] and current_rc_ids["col"]. */
    var rowId: int
    var colId: int
    /** rc_metronome: 0 draws from the rows, 1 from the columns. */
    var metronome: int

    /** The state as a value of the pure model. */
    function Model(): Maze
      reads this`grid, this`rows, this`cols, this`rowId, this`colId
    {
      Maze(width, height, grid, rows, cols, rowId, colId)
    }

    /** The class invariant. */
    ghost predicate Valid()
      reads this
    {
      Running(Model(), metronome)
    }

    /** The module-level initial state: only the origin visited, row 1 and column 1 growing from it. */
    constructor (w: int, h: int)
      requires w >= 2 && h >= 2
      ensures Valid()
      ensures Model() == Seed(w, h) && metronome == 0
    {
      width, height := w, h;
      grid := SeedGrid(w, h);
      rows := map[1 := Origin];
      cols := map[1 := Origin];
      rowId, colId := 1, 1;
      metronome := 0;
      new;
      SeedTracked(w, h);
    }

    /** Replaces the registry of axis a. */
    method SetSegs(a: Axis, mp: map<int, Segment>)
      modifies this
      ensures Model() == WithSegs(old(Model()), a, mp)
      ensures metronome == old(metronome)
    {
      if a == Row { rows := mp; } else { cols := mp; }
    }

    /** Sets one liveness flag to False; an id that is not registered is left alone. */
    method KillEnd(a: Axis, id: Option<int>, e: End)
      modifies this
      ensures Model() == WithSegs(old(Model()), a, KillIn(SegsOn(old(Model()), a), id, e))
      ensures metronome == old(metronome)
    {
      SetSegs(a, KillIn(SegsOn(Model(), a), id, e));
    }

    /**
     * initialise_new_rc: raises the counter of axis a and registers under the
     * new id a one-cell segment at (x, y) whose ends are alive exactly when
     * the next cell in their direction exists and is unvisited.
     */
    method InitialiseNewRc(x: int, y: int, a: Axis) returns (id: int)
      requires Rectangular(Model())
      modifies this
      ensures (Model(), id) == AddSegment(old(Model()), a, (x, y))
      ensures metronome == old(metronome)
    {
      var p := (x, y);
      var before := Model();
      if a == Row {
        rowId := rowId + 1;
        id := rowId;
      } else {
        colId := colId + 1;
        id := colId;
      }
      var ahead := GetMazeCell(before, Shift(p, a, 1));
      var behind := GetMazeCell(before, Shift(p, a, -1));
      var seg := Segment(1, p, p, ahead.Some? && !CellVisited(ahead.value), behind.Some? && !CellVisited(behind.value));
      SetSegs(a, SegsOn(Model(), a)[id := seg]);
    }

    /**
     * connect_rc_to_new_cell: refuses an unknown id or a dead end and changes
     * nothing then; otherwise end e of segment k grows into the next cell,
     * which gets a fresh perpendicular segment, and the ahead rule and the two
     * collateral checks run, exactly as Extend describes. The invariant is
     * kept, and exactly one more cell is visited.
     */
    method ConnectRcToNewCell(k: int, e: End, a: Axis) returns (r: Outcome)
      requires Valid()
      modifies this
      ensures Valid() && metronome == old(metronome)
      ensures k !in SegsOn(old(Model()), a) ==>
        r == Refused(UnknownSegment) && Model() == old(Model())
      ensures k in SegsOn(old(Model()), a) && !IsAlive(SegsOn(old(Model()), a)[k], e) ==>
        r == Refused(DeadEnd) && Model() == old(Model())
      ensures r == Connected <==> k in SegsOn(old(Model()), a) && IsAlive(SegsOn(old(Model()), a)[k], e)
      ensures r == Connected ==>
        && InBounds(old(Model()), NewCell(SegsOn(old(Model()), a)[k], a, e))
        && Model() == Extend(old(Model()), a, k, e)
        && |VisitedCells(Model())| == |VisitedCells(old(Model()))| + 1
       
    {
      var m := Model();
      var segs := SegsOn(m, a);
      if k !in segs {
        return Refused(UnknownSegment);
      }
      var s := segs[k];
      if !IsAlive(s, e) {
        return Refused(DeadEnd);
      }
      AliveEndOpen(m, a, k, e);
      ExtendTracked(m, a, k, e);
      ExtendVisits(m, a, k, e);
      Connect(k, e, a);
      return Connected;
    }

    /** The three stages of a successful connect_rc_to_new_cell, in the order it runs them. */
    method Connect(k: int, e: End, a: Axis)
      requires Rectangular(Model()) && k in SegsOn(Model(), a)
      requires InBounds(Model(), NewCell(SegsOn(Model(), a)[k], a, e))
      modifies this
      ensures Model() == Extend(old(Model()), a, k, e)
      ensures metronome == old(metronome)
    {
      var s := SegsOn(Model(), a)[k];
      GrowStage(k, e, a);
      AheadStage(k, e, a, s);
      CollateralStage(a, NewCell(s, a, e));
    }

    /**
     * The first part of connect_rc_to_new_cell: a new perpendicular segment
     * for the new cell, the chosen segment one cell longer with end e moved
     * onto it, and the new cell's ids written into the grid.
     */
    method GrowStage(k: int, e: End, a: Axis)
      requires Rectangular(Model()) && k in SegsOn(Model(), a)
      requires InBounds(Model(), NewCell(SegsOn(Model(), a)[k], a, e))
      modifies this
      ensures Model() == Grow(old(Model()), a, k, e)
      ensures metronome == old(metronome)
    {
      var s := SegsOn(Model(), a)[k];
      var n := NewCell(s, a, e);
      var pid := InitialiseNewRc(n.0, n.1, Other(a));
      SetSegs(a, SegsOn(Model(), a)[k := Grown(s, e, n)]);
      grid := grid[n.0 := grid[n.0][n.1 := CellIds(a, k, pid)]];
    }

    /**
     * The ahead rule: when the cell two steps beyond the old end is off the
     * grid or visited, the new end dies, and so does the facing end of that
     * cell's segment on the same axis.
     */
    method AheadStage(k: int, e: End, a: Axis, s: Segment)
      requires Rectangular(Model())
      modifies this
      ensures Model() == AheadRule(old(Model()), a, k, e, AheadCell(s, a, e))
      ensures metronome == old(metronome)
    {
      var c := GetMazeCell(Model(), AheadCell(s, a, e));
      if c.None? || CellVisited(c.value) {
        KillEnd(a, Some(k), e);
        if c.Some? {
          KillEnd(a, IdOn(c.value, a), Opposite(e));
        }
      }
    }

    /**
     * The collateral checks: for each perpendicular neighbour of the new cell
     * n that is visited, the end of its perpendicular segment facing n dies.
     */
    method CollateralStage(a: Axis, n: Coord)
      requires Rectangular(Model())
      modifies this
      ensures Model() == Collateral(old(Model()), a, n, 2)
      ensures metronome == old(metronome)
    {
      ghost var blocked := Model();
      var b := Other(a);
      var i := 0;
      while i < 2
        invariant 0 <= i <= 2
        invariant Model() == Collateral(blocked, a, n, i)
        invariant metronome == old(metronome)
      {
        var d := CollateralOffset(i);
        var neighbour := GetMazeCell(Model(), Shift(n, b, d));
        if neighbour.Some? && CellVisited(neighbour.value) {
          KillEnd(b, IdOn(neighbour.value, b), FacingEnd(d));
        }
        i := i + 1;
      }
    }

    /**
     * step: ranks the alive segments of the axis the metronome names. With
     * none, it reports that it is done and changes nothing. Otherwise it
     * extends the eligible candidate at index pick at the alive end at index
     * endChoice (the two random.choice calls), toggles the metronome, and
     * keeps the invariant.
     */
    method Step(pick: nat, endChoice: nat) returns (done: bool)
      requires Valid()
      requires |Pool(Model(), Turn(metronome))| > 0 ==>
        && pick < Eligible(|Pool(Model(), Turn(metronome))|)
        && endChoice < |EndOptions(Pool(Model(), Turn(metronome))[pick].seg)|
      modifies this
      ensures Valid()
      ensures done <==> |Pool(old(Model()), Turn(old(metronome)))| == 0
      ensures done ==> Model() == old(Model()) && metronome == old(metronome)
      ensures !done ==>
        var a := Turn(old(metronome));
        var c := Pool(old(Model()), a)[pick];
        var e := EndOptions(c.seg)[endChoice];
        && c.id in SegsOn(old(Model()), a) && IsAlive(SegsOn(old(Model()), a)[c.id], e)
        && InBounds(old(Model()), NewCell(SegsOn(old(Model()), a)[c.id], a, e))
        && Model() == Extend(old(Model()), a, c.id, e)
        && |VisitedCells(Model())| == |VisitedCells(old(Model()))| + 1
        && metronome == 1 - old(metronome)
    {
      var a := Turn(metronome);
      if |Pool(Model(), a)| == 0 {
        return true;
      }
      Choose(a, pick, endChoice);
      return false;
    }

    /**
     * step as evidently intended: when the axis the metronome names has no
     * alive segment, the other axis is used, and done is reported only when
     * neither axis has one, which is exactly when every cell of the grid is
     * visited.
     */
    method StepEitherAxis(pick: nat, endChoice: nat) returns (done: bool)
      requires Valid()
      requires var a := FallbackTurn(Model(), metronome);
        |Pool(Model(), a)| > 0 ==>
        && pick < Eligible(|Pool(Model(), a)|)
        && endChoice < |EndOptions(Pool(Model(), a)[pick].seg)|
      modifies this
      ensures Valid()
      ensures done <==> VisitedCells(old(Model())) == AllCells(width, height)
      ensures done <==> |Pool(old(Model()), FallbackTurn(old(Model()), old(metronome)))| == 0
      ensures done ==> Model() == old(Model()) && metronome == old(metronome)
      ensures !done ==>
        var a := FallbackTurn(old(Model()), old(metronome));
        var c := Pool(old(Model()), a)[pick];
        var e := EndOptions(c.seg)[endChoice];
        && c.id in SegsOn(old(Model()), a) && IsAlive(SegsOn(old(Model()), a)[c.id], e)
        && Model() == Extend(old(Model()), a, c.id, e)
        && |VisitedCells(Model())| == |VisitedCells(old(Model()))| + 1
        && metronome == 1 - old(metronome)
    {
      PoolsEmptyIffFull(Model());
      var a := FallbackTurn(Model(), metronome);
      if |Pool(Model(), a)| == 0 {
        return true;
      }
      Choose(a, pick, endChoice);
      return false;
    }

    /**
     * The rest of step once the population of axis a is known to be
     * non-empty: the eligible candidate at index pick, its alive end at
     * index endChoice (ht_options), the connection and the toggle.
     */
    method Choose(a: Axis, pick: nat, endChoice: nat)
      requires Valid() && |Pool(Model(), a)| > 0
      requires pick < Eligible(|Pool(Model(), a)|)
      requires endChoice < |EndOptions(Pool(Model(), a)[pick].seg)|
      modifies this
      ensures Valid()
      ensures var c := Pool(old(Model()), a)[pick];
        var e := EndOptions(c.seg)[endChoice];
        && c.id in SegsOn(old(Model()), a) && IsAlive(SegsOn(old(Model()), a)[c.id], e)
        && InBounds(old(Model()), NewCell(SegsOn(old(Model()), a)[c.id], a, e))
        && Model() == Extend(old(Model()), a, c.id, e)
        && |VisitedCells(Model())| == |VisitedCells(old(Model()))| + 1
        && metronome == 1 - old(metronome)
    {
      ghost var before := Model();
      var population := Pool(Model(), a);
      var chosen := population[pick];
      var options := AliveEnds(chosen.seg);
      ChosenIsAlive(before, a, pick, endChoice);
      Advance(chosen.id, options[endChoice], a);
      assert Model() == Extend(before, a, chosen.id, options[endChoice]);
    }

    /**
     * The second half of step: connect the chosen end and toggle the metronome
     * (rc_metronome ^= 1, which on 0 and 1 is 1 - rc_metronome). The source
     * toggles after connecting; connect_rc_to_new_cell never reads the
     * metronome, so toggling first gives the same final state.
     */
    method Advance(k: int, e: End, a: Axis)
      requires Valid() && k in SegsOn(Model(), a) && IsAlive(SegsOn(Model(), a)[k], e)
      modifies this
      ensures Valid()
      ensures InBounds(old(Model()), NewCell(SegsOn(old(Model()), a)[k], a, e))
      ensures Model() == Extend(old(Model()), a, k, e)
      ensures |VisitedCells(Model())| == |VisitedCells(old(Model()))| + 1
      ensures metronome == 1 - old(metronome)
    {
      metronome := 1 - metronome;
      var outcome := ConnectRcToNewCell(k, e, a);
    }
  }
}
