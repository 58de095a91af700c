/**
 * The registries track the grid exactly: every cell on a segment's run
 * carries that segment's id, every id a cell carries names a segment whose
 * run holds the cell, and a dead end cannot grow (the cell beyond it is off
 * the grid or visited).  Every extension keeps this, and under it the
 * generator has nothing left to grow exactly when every cell is visited.
 */
module MazeCoverage {
  import opened MazeModel

  /** q lies on the run of s along axis a, between its tail and its head. */
  predicate InRun(s: Segment, a: Axis, q: Coord) {
    Across(q, a) == Across(s.head, a) && Along(s.tail, a) <= Along(q, a) <= Along(s.head, a)
  }

  /** The run of t contains the run of s (t lies on the same line and reaches at least as far both ways). */
  predicate Widens(s: Segment, t: Segment, a: Axis) {
    Across(t.head, a) == Across(s.head, a) && Along(t.tail, a) <= Along(s.tail, a) && Along(s.head, a) <= Along(t.head, a)
  }

  /** Every cell on the run of segment k carries k. */
  ghost predicate RunOwned(m: Maze, a: Axis, k: int, s: Segment)
    requires Rectangular(m)
  {
    forall q | InRun(s, a, q) :: InBounds(m, q) && IdOn(At(m, q), a) == Some(k)
  }

  /** The id cell q carries on axis a, if any, names a segment whose run holds q. */
  ghost predicate CellOnRun(m: Maze, a: Axis, q: Coord)
    requires Rectangular(m) && InBounds(m, q)
  {
    var id := IdOn(At(m, q), a);
    id.Some? ==> id.value in SegsOn(m, a) && InRun(SegsOn(m, a)[id.value], a, q)
  }

  ghost predicate CellsOnRuns(m: Maze, a: Axis)
    requires Rectangular(m)
  {
    forall q | InBounds(m, q) :: CellOnRun(m, a, q)
  }

  ghost predicate RunsOwned(m: Maze, a: Axis)
    requires Rectangular(m)
  {
    forall k | k in SegsOn(m, a) :: RunOwned(m, a, k, SegsOn(m, a)[k])
  }

  /** A dead end cannot grow: the cell beyond it is off the grid or visited. */
  ghost predicate DeadOk(m: Maze, a: Axis)
    requires Rectangular(m)
  {
    forall k, f | k in SegsOn(m, a) && !IsAlive(SegsOn(m, a)[k], f) :: !Open(m, NewCell(SegsOn(m, a)[k], a, f))
  }

  /** The registry of axis a tracks the grid: runs and ids agree both ways, and dead ends cannot grow. */
  ghost predicate TrackedOn(m: Maze, a: Axis)
    requires Rectangular(m)
  {
    RunsOwned(m, a) && CellsOnRuns(m, a) && DeadOk(m, a)
  }

  /** The bookkeeping invariant, the origin visited, and the registries tracking the grid on both axes. */
  ghost predicate Tracked(m: Maze) {
    && Inv(m)
    && InBounds(m, (0, 0)) && CellVisited(At(m, (0, 0)))
    && TrackedOn(m, Row) && TrackedOn(m, Col)
  }

  /** No segment of axis a has an alive end. */
  predicate Stuck(m: Maze, a: Axis) {
    forall k | k in SegsOn(m, a) :: !IsAlive(SegsOn(m, a)[k], Head) && !IsAlive(SegsOn(m, a)[k], Tail)
  }

  // ---------------------------------------------------------------------
  // The initial state
  // ---------------------------------------------------------------------

  lemma SeedTracked(width: nat, height: nat)
    requires width >= 2 && height >= 2
    ensures Tracked(Seed(width, height))
  {
    var m := Seed(width, height);
    SeedInv(width, height);
    forall a: Axis ensures TrackedOn(m, a) {
      SeedRuns(width, height, a);
    }
  }

  lemma SeedRuns(width: nat, height: nat, a: Axis)
    requires width >= 2 && height >= 2
    ensures Rectangular(Seed(width, height))
    ensures var m := Seed(width, height); RunsOwned(m, a) && CellsOnRuns(m, a) && DeadOk(m, a)
  {
    var m := Seed(width, height);
    assert SegsOn(m, a) == map[1 := Origin];
    forall q | InRun(Origin, a, q) ensures InBounds(m, q) && IdOn(At(m, q), a) == Some(1) {
      assert q == (0, 0);
    }
    assert RunOwned(m, a, 1, Origin);
    forall q | InBounds(m, q) ensures CellOnRun(m, a, q) {
      if q != (0, 0) {
        assert At(m, q) == Unvisited;
      }
    }
    assert !Open(m, NewCell(Origin, a, Tail));
  }

  // ---------------------------------------------------------------------
  // Small facts about runs
  // ---------------------------------------------------------------------

  /** Two coordinates that agree along and across an axis are equal. */
  lemma SameCoord(p: Coord, q: Coord, a: Axis)
    requires Along(p, a) == Along(q, a) && Across(p, a) == Across(q, a)
    ensures p == q
  {
  }

  /**
   * A straight segment whose run holds v = n + d but not n meets n with the
   * end facing it: its tail when d is +1, its head when d is -1.
   */
  lemma FacingEndMeets(u: Segment, c: Axis, v: Coord, n: Coord, d: int)
    requires d == 1 || d == -1
    requires v == Shift(n, c, d) && Straight(u, c)
    requires InRun(u, c, v) && !InRun(u, c, n)
    ensures NewCell(u, c, FacingEnd(d)) == n
  {
    if d == 1 {
      SameCoord(u.tail, v, c);
    } else {
      SameCoord(u.head, v, c);
    }
  }

  /** The cell beyond the grown end lies one step past the new cell, and the end the ahead rule kills faces it. */
  lemma AheadIsBeyond(s: Segment, a: Axis, e: End)
    ensures AheadCell(s, a, e) == Shift(NewCell(s, a, e), a, Sign(e))
    ensures Opposite(e) == FacingEnd(Sign(e))
  {
  }

  /** Growing an end onto the next cell widens the run by that cell and no other. */
  lemma GrownRun(s: Segment, a: Axis, e: End, n: Coord)
    requires n == NewCell(s, a, e) && Straight(s, a)
    ensures Widens(s, Grown(s, e, n), a)
    ensures InRun(Grown(s, e, n), a, n)
    ensures forall q | InRun(Grown(s, e, n), a, q) && q != n :: InRun(s, a, q)
  {
    forall q | InRun(Grown(s, e, n), a, q) && q != n ensures InRun(s, a, q) {
      if Along(q, a) == Along(n, a) {
        SameCoord(q, n, a);
      }
    }
  }

  // ---------------------------------------------------------------------
  // Runs after the write of the new cell (abstract over the new state r)
  // ---------------------------------------------------------------------

  /** The write frame of an extension: r differs from m only at the unvisited cell n. */
  ghost predicate WrittenOnly(m: Maze, r: Maze, n: Coord)
    requires Rectangular(m) && Rectangular(r)
  {
    && r.width == m.width && r.height == m.height
    && InBounds(m, n) && At(m, n) == Unvisited
    && (forall q | InBounds(m, q) && q != n :: At(r, q) == At(m, q))
  }

  lemma KeptRunOwned(m: Maze, r: Maze, a: Axis, j: int, u: Segment, v: Segment, n: Coord)
    requires Rectangular(m) && Rectangular(r) && WrittenOnly(m, r, n)
    requires RunOwned(m, a, j, u) && SameShape(v, u)
    ensures RunOwned(r, a, j, v)
  {
    forall q | InRun(v, a, q) ensures InBounds(r, q) && IdOn(At(r, q), a) == Some(j) {
      assert InRun(u, a, q);
    }
  }

  lemma MovedRunOwned(m: Maze, r: Maze, a: Axis, k: int, s: Segment, t: Segment, e: End, n: Coord)
    requires Rectangular(m) && Rectangular(r) && WrittenOnly(m, r, n)
    requires RunOwned(m, a, k, s) && Straight(s, a) && n == NewCell(s, a, e)
    requires IdOn(At(r, n), a) == Some(k)
    requires SameShape(t, Grown(s, e, n))
    ensures RunOwned(r, a, k, t)
  {
    GrownRun(s, a, e, n);
    forall q | InRun(t, a, q) ensures InBounds(r, q) && IdOn(At(r, q), a) == Some(k) {
      if q != n {
        assert InRun(s, a, q);
      }
    }
  }

  lemma NewRunOwned(r: Maze, b: Axis, pid: int, n: Coord, v: Segment)
    requires Rectangular(r) && InBounds(r, n) && IdOn(At(r, n), b) == Some(pid)
    requires v.head == n && v.tail == n
    ensures RunOwned(r, b, pid, v)
  {
    forall q | InRun(v, b, q) ensures q == n {
      SameCoord(q, n, b);
    }
  }

  /**
   * After the write, every id a cell carries on axis c still names a
   * segment whose run holds the cell: the new cell's id names a run through
   * it, and every older segment kept or widened its run.
   */
  lemma CellsOnRunsAfter(m: Maze, r: Maze, c: Axis, n: Coord, id: int)
    requires Rectangular(m) && Rectangular(r) && WrittenOnly(m, r, n)
    requires CellsOnRuns(m, c)
    requires IdOn(At(r, n), c) == Some(id) && id in SegsOn(r, c) && InRun(SegsOn(r, c)[id], c, n)
    requires forall j | j in SegsOn(m, c) :: j in SegsOn(r, c) && Widens(SegsOn(m, c)[j], SegsOn(r, c)[j], c)
    ensures CellsOnRuns(r, c)
  {
    forall q | InBounds(r, q) ensures CellOnRun(r, c, q) {
      if q != n {
        assert At(r, q) == At(m, q);
        assert CellOnRun(m, c, q);
        var id := IdOn(At(m, q), c);
        if id.Some? {
          var j := id.value;
          assert j in SegsOn(m, c) && InRun(SegsOn(m, c)[j], c, q);
          assert j in SegsOn(r, c) && Widens(SegsOn(m, c)[j], SegsOn(r, c)[j], c);
        }
      }
    }
  }

  /**
   * After the write, a dead end cannot grow as long as each dead end either
   * could not grow before or grows into the new cell, which is now visited.
   */
  lemma DeadOkAfter(m: Maze, r: Maze, c: Axis, n: Coord)
    requires Rectangular(m) && Rectangular(r)
    requires forall q | q != n :: Open(r, q) == Open(m, q)
    requires !Open(r, n)
    requires forall j, f | j in SegsOn(r, c) && !IsAlive(SegsOn(r, c)[j], f) ::
      NewCell(SegsOn(r, c)[j], c, f) == n || !Open(m, NewCell(SegsOn(r, c)[j], c, f))
    ensures DeadOk(r, c)
  {
  }

  // ---------------------------------------------------------------------
  // Every extension keeps the registries tracking the grid
  // ---------------------------------------------------------------------

  /** The frame facts about an extension of an alive end of a tracked state. */
  lemma ExtendWritten(m: Maze, a: Axis, k: int, e: End)
    requires Inv(m) && k in SegsOn(m, a) && IsAlive(SegsOn(m, a)[k], e)
    ensures var n := NewCell(SegsOn(m, a)[k], a, e); var r := Extend(m, a, k, e);
      && Rectangular(r) && WrittenOnly(m, r, n)
      && At(r, n) == CellIds(a, k, CounterOn(m, Other(a)) + 1)
      && (forall q | q != n :: Open(r, q) == Open(m, q))
      && !Open(r, n)
  {
    var n := NewCell(SegsOn(m, a)[k], a, e);
    AliveEndOpen(m, a, k, e);
    ExtendGrid(m, a, k, e);
    assert CellOk(m, m.grid[n.0][n.1]);
  }

  /** The runs of the growing axis after the write: the grown segment owns its widened run, every other run is kept. */
  lemma SameAxisRunsAfter(m: Maze, r: Maze, a: Axis, k: int, e: End, s: Segment, n: Coord)
    requires Rectangular(m) && Rectangular(r) && WrittenOnly(m, r, n)
    requires RunsOwned(m, a) && CellsOnRuns(m, a)
    requires k in SegsOn(m, a) && s == SegsOn(m, a)[k] && Straight(s, a) && n == NewCell(s, a, e)
    requires IdOn(At(r, n), a) == Some(k)
    requires SegsOn(r, a).Keys == SegsOn(m, a).Keys
    requires forall j | j in SegsOn(m, a) :: SameShape(SegsOn(r, a)[j], if j == k then Grown(s, e, n) else SegsOn(m, a)[j])
    ensures RunsOwned(r, a) && CellsOnRuns(r, a)
  {
    GrownRun(s, a, e, n);
    forall j | j in SegsOn(r, a) ensures RunOwned(r, a, j, SegsOn(r, a)[j]) {
      assert RunOwned(m, a, j, SegsOn(m, a)[j]);
      if j == k {
        MovedRunOwned(m, r, a, k, s, SegsOn(r, a)[k], e, n);
      } else {
        KeptRunOwned(m, r, a, j, SegsOn(m, a)[j], SegsOn(r, a)[j], n);
      }
    }
    forall j | j in SegsOn(m, a) ensures j in SegsOn(r, a) && Widens(SegsOn(m, a)[j], SegsOn(r, a)[j], a) {
    }
    assert InRun(SegsOn(r, a)[k], a, n);
    CellsOnRunsAfter(m, r, a, n, k);
  }

  /** The runs of the perpendicular axis after the write: the new segment owns the new cell, every other run is kept. */
  lemma PerpAxisRunsAfter(m: Maze, r: Maze, b: Axis, pid: int, n: Coord, mp: map<int, Segment>)
    requires Rectangular(m) && Rectangular(r) && WrittenOnly(m, r, n)
    requires RunsOwned(m, b) && CellsOnRuns(m, b)
    requires pid !in SegsOn(m, b) && mp == SegsOn(m, b)[pid := NewSegment(m, b, n)]
    requires IdOn(At(r, n), b) == Some(pid)
    requires SegsOn(r, b).Keys == mp.Keys
    requires forall j | j in mp :: SameShape(SegsOn(r, b)[j], mp[j])
    ensures RunsOwned(r, b) && CellsOnRuns(r, b)
  {
    forall j | j in SegsOn(r, b) ensures RunOwned(r, b, j, SegsOn(r, b)[j]) {
      if j == pid {
        NewRunOwned(r, b, pid, n, SegsOn(r, b)[pid]);
      } else {
        assert RunOwned(m, b, j, SegsOn(m, b)[j]);
        KeptRunOwned(m, r, b, j, SegsOn(m, b)[j], SegsOn(r, b)[j], n);
      }
    }
    forall j | j in SegsOn(m, b) ensures j in SegsOn(r, b) && Widens(SegsOn(m, b)[j], SegsOn(r, b)[j], b) {
      assert mp[j] == SegsOn(m, b)[j];
    }
    assert InRun(SegsOn(r, b)[pid], b, n);
    CellsOnRunsAfter(m, r, b, n, pid);
  }

  lemma ExtendSameAxisRuns(m: Maze, a: Axis, k: int, e: End)
    requires Inv(m) && TrackedOn(m, a) && k in SegsOn(m, a) && IsAlive(SegsOn(m, a)[k], e)
    ensures Rectangular(Extend(m, a, k, e))
    ensures RunsOwned(Extend(m, a, k, e), a) && CellsOnRuns(Extend(m, a, k, e), a)
  {
    ExtendWritten(m, a, k, e);
    ExtendSameAxisShape(m, a, k, e);
    var s := SegsOn(m, a)[k];
    assert SegOk(m, a, k, s);
    SameAxisRunsAfter(m, Extend(m, a, k, e), a, k, e, s, NewCell(s, a, e));
  }

  lemma ExtendPerpAxisRuns(m: Maze, a: Axis, k: int, e: End)
    requires Inv(m) && TrackedOn(m, Other(a)) && k in SegsOn(m, a) && IsAlive(SegsOn(m, a)[k], e)
    ensures Rectangular(Extend(m, a, k, e))
    ensures RunsOwned(Extend(m, a, k, e), Other(a)) && CellsOnRuns(Extend(m, a, k, e), Other(a))
  {
    ExtendWritten(m, a, k, e);
    ExtendPerpAxis(m, a, k, e);
    var b := Other(a);
    var n := NewCell(SegsOn(m, a)[k], a, e);
    var pid := CounterOn(m, b) + 1;
    FreshIdUnused(m, b, n, pid);
    PerpAxisRunsAfter(m, Extend(m, a, k, e), b, pid, n, SegsOn(m, b)[pid := NewSegment(m, b, n)]);
  }

  /**
   * The dead ends of the growing axis after the write: the moved end died
   * because the cell beyond it was blocked, and the end the ahead rule
   * killed faces the new cell.
   */
  lemma SameAxisDeadOkAfter(m: Maze, r: Maze, a: Axis, k: int, e: End, s: Segment, n: Coord)
    requires Inv(m) && TrackedOn(m, a) && Rectangular(r)
    requires k in SegsOn(m, a) && s == SegsOn(m, a)[k] && IsAlive(s, e) && n == NewCell(s, a, e)
    requires SegOk(m, a, k, s) && Open(m, n)
    requires forall q | q != n :: Open(r, q) == Open(m, q)
    requires !Open(r, n)
    requires SegsOn(r, a).Keys == SegsOn(m, a).Keys
    requires forall j | j in SegsOn(m, a) :: SameShape(SegsOn(r, a)[j], if j == k then Grown(s, e, n) else SegsOn(m, a)[j])
    requires forall j, f | j in SegsOn(m, a) :: IsAlive(SegsOn(r, a)[j], f) <==>
      IsAlive(SegsOn(m, a)[j], f) && !(j == k && f == e && !Open(m, AheadCell(s, a, e))) && !AheadKilled(m, a, s, e, j, f)
    ensures DeadOk(r, a)
  {
    forall j, f | j in SegsOn(r, a) && !IsAlive(SegsOn(r, a)[j], f)
      ensures NewCell(SegsOn(r, a)[j], a, f) == n || !Open(m, NewCell(SegsOn(r, a)[j], a, f))
    {
      SameAxisDeadEnd(m, a, k, e, s, n, j, f, SegsOn(m, a)[j], SegsOn(r, a)[j]);
    }
    DeadOkAfter(m, r, a, n);
  }

  lemma SameAxisDeadEnd(m: Maze, a: Axis, k: int, e: End, s: Segment, n: Coord, j: int, f: End, u: Segment, v: Segment)
    requires Inv(m) && TrackedOn(m, a) && k in SegsOn(m, a) && s == SegsOn(m, a)[k] && IsAlive(s, e) && n == NewCell(s, a, e)
    requires SegOk(m, a, k, s) && Open(m, n)
    requires j in SegsOn(m, a) && u == SegsOn(m, a)[j]
    requires SameShape(v, if j == k then Grown(s, e, n) else u)
    requires !IsAlive(v, f)
    requires IsAlive(v, f) <==>
      IsAlive(u, f) && !(j == k && f == e && !Open(m, AheadCell(s, a, e))) && !AheadKilled(m, a, s, e, j, f)
    ensures NewCell(v, a, f) == n || !Open(m, NewCell(v, a, f))
  {
    AheadIsBeyond(s, a, e);
    if AheadKilled(m, a, s, e, j, f) {
      var w := AheadCell(s, a, e);
      assert CellOnRun(m, a, w);
      assert SegOk(m, a, j, u);
      assert RunOwned(m, a, j, u);
      assert !InRun(u, a, n) by {
        if InRun(u, a, n) { OwnedIsVisited(m, a, n, j); }
      }
      FacingEndMeets(u, a, w, n, Sign(e));
    } else if !IsAlive(u, f) {
      assert !Open(m, NewCell(u, a, f));
      if j == k {
        assert f != e;
        assert EndOf(v, f) == EndOf(s, f);
      }
    }
  }

  lemma ExtendSameAxisDeadOk(m: Maze, a: Axis, k: int, e: End)
    requires Inv(m) && TrackedOn(m, a) && k in SegsOn(m, a) && IsAlive(SegsOn(m, a)[k], e)
    ensures Rectangular(Extend(m, a, k, e)) && DeadOk(Extend(m, a, k, e), a)
  {
    ExtendWritten(m, a, k, e);
    ExtendSameAxisShape(m, a, k, e);
    ExtendSameAxisFlags(m, a, k, e);
    var s := SegsOn(m, a)[k];
    assert SegOk(m, a, k, s);
    AliveEndOpen(m, a, k, e);
    SameAxisDeadOkAfter(m, Extend(m, a, k, e), a, k, e, s, NewCell(s, a, e));
  }

  /**
   * The dead ends of the perpendicular axis after the write: the new
   * segment's ends are dead only towards blocked cells, and a collateral
   * kill hits the end that faces the new cell.
   */
  lemma PerpAxisDeadOkAfter(m: Maze, r: Maze, b: Axis, pid: int, n: Coord, mp: map<int, Segment>)
    requires Inv(m) && TrackedOn(m, b) && Rectangular(r) && Open(m, n)
    requires forall q | q != n :: Open(r, q) == Open(m, q)
    requires !Open(r, n)
    requires pid == CounterOn(m, b) + 1 && mp == SegsOn(m, b)[pid := NewSegment(m, b, n)]
    requires SegsOn(r, b).Keys == mp.Keys
    requires forall j | j in mp :: SameShape(SegsOn(r, b)[j], mp[j])
    requires forall j, f | j in mp :: IsAlive(SegsOn(r, b)[j], f) <==> IsAlive(mp[j], f) && !FacingKilled(m, b, n, 2, j, f)
    ensures DeadOk(r, b)
  {
    FreshIdUnused(m, b, n, pid);
    forall j, f | j in SegsOn(r, b) && !IsAlive(SegsOn(r, b)[j], f)
      ensures NewCell(SegsOn(r, b)[j], b, f) == n || !Open(m, NewCell(SegsOn(r, b)[j], b, f))
    {
      if j == pid {
        assert NewCell(SegsOn(r, b)[j], b, f) == Shift(n, b, Sign(f));
      } else {
        PerpDeadEnd(m, b, n, j, f, SegsOn(m, b)[j], SegsOn(r, b)[j]);
      }
    }
    DeadOkAfter(m, r, b, n);
  }

  lemma PerpDeadEnd(m: Maze, b: Axis, n: Coord, j: int, f: End, u: Segment, v: Segment)
    requires Inv(m) && TrackedOn(m, b) && Open(m, n)
    requires j in SegsOn(m, b) && u == SegsOn(m, b)[j]
    requires SameShape(v, u) && !IsAlive(v, f)
    requires IsAlive(v, f) <==> IsAlive(u, f) && !FacingKilled(m, b, n, 2, j, f)
    ensures NewCell(v, b, f) == n || !Open(m, NewCell(v, b, f))
  {
    if IsAlive(u, f) {
      var d := if Faces(m, b, n, 1, j, f) then 1 else -1;
      assert Faces(m, b, n, d, j, f);
      var w := Shift(n, b, d);
      assert CellOnRun(m, b, w);
      assert SegOk(m, b, j, u);
      assert RunOwned(m, b, j, u);
      assert !InRun(u, b, n) by {
        if InRun(u, b, n) { OwnedIsVisited(m, b, n, j); }
      }
      FacingEndMeets(u, b, w, n, d);
    }
  }

  lemma ExtendPerpAxisDeadOk(m: Maze, a: Axis, k: int, e: End)
    requires Inv(m) && TrackedOn(m, Other(a)) && k in SegsOn(m, a) && IsAlive(SegsOn(m, a)[k], e)
    ensures Rectangular(Extend(m, a, k, e)) && DeadOk(Extend(m, a, k, e), Other(a))
  {
    ExtendWritten(m, a, k, e);
    ExtendPerpAxis(m, a, k, e);
    AliveEndOpen(m, a, k, e);
    var b := Other(a);
    var n := NewCell(SegsOn(m, a)[k], a, e);
    var pid := CounterOn(m, b) + 1;
    PerpAxisDeadOkAfter(m, Extend(m, a, k, e), b, pid, n, SegsOn(m, b)[pid := NewSegment(m, b, n)]);
  }

  lemma ExtendOriginVisited(m: Maze, a: Axis, k: int, e: End)
    requires Tracked(m) && k in SegsOn(m, a) && IsAlive(SegsOn(m, a)[k], e)
    ensures Rectangular(Extend(m, a, k, e))
    ensures InBounds(Extend(m, a, k, e), (0, 0)) && CellVisited(At(Extend(m, a, k, e), (0, 0)))
  {
    ExtendWritten(m, a, k, e);
  }

  /** Every extension of an alive end of a tracked state leaves a tracked state. */
  lemma ExtendTracked(m: Maze, a: Axis, k: int, e: End)
    requires Tracked(m) && k in SegsOn(m, a) && IsAlive(SegsOn(m, a)[k], e)
    ensures Tracked(Extend(m, a, k, e))
  {
    assert TrackedOn(m, a) && TrackedOn(m, Other(a));
    ExtendInv(m, a, k, e);
    ExtendOriginVisited(m, a, k, e);
    ExtendSameAxisRuns(m, a, k, e);
    ExtendPerpAxisRuns(m, a, k, e);
    ExtendSameAxisDeadOk(m, a, k, e);
    ExtendPerpAxisDeadOk(m, a, k, e);
    var r := Extend(m, a, k, e);
    assert TrackedOn(r, a) && TrackedOn(r, Other(a));
    assert TrackedOn(r, Row) && TrackedOn(r, Col);
  }

  // ---------------------------------------------------------------------
  // Nothing left to grow exactly when every cell is visited
  // ---------------------------------------------------------------------

  /**
   * Walking len steps along axis c from the visited cell p to an unvisited
   * one crosses a visited cell followed by an unvisited one.
   */
  lemma {:induction false} FirstGap(m: Maze, p: Coord, c: Axis, len: nat) returns (i: nat)
    requires Rectangular(m) && len >= 1 && InBounds(m, p) && InBounds(m, Shift(p, c, len))
    requires CellVisited(At(m, p)) && !CellVisited(At(m, Shift(p, c, len)))
    ensures i < len && InBounds(m, Shift(p, c, i)) && InBounds(m, Shift(p, c, i + 1))
    ensures CellVisited(At(m, Shift(p, c, i))) && !CellVisited(At(m, Shift(p, c, i + 1)))
  {
    var before := Shift(p, c, len - 1);
    assert InBounds(m, before);
    if CellVisited(At(m, before)) {
      i := len - 1;
    } else {
      assert len - 1 >= 1 by { assert Shift(p, c, 0) == p; }
      i := FirstGap(m, p, c, len - 1);
    }
  }

  /**
   * A visited cell p followed along axis c by an unvisited cell on the grid
   * is the head of its segment on c, and that head is alive.
   */
  lemma GapHasAliveHead(m: Maze, c: Axis, p: Coord) returns (k: int)
    requires Tracked(m) && InBounds(m, p) && InBounds(m, Shift(p, c, 1))
    requires CellVisited(At(m, p)) && !CellVisited(At(m, Shift(p, c, 1)))
    ensures k in SegsOn(m, c) && IsAlive(SegsOn(m, c)[k], Head)
    ensures IdOn(At(m, p), c) == Some(k) && SegsOn(m, c)[k].head == p
  {
    assert CellOk(m, m.grid[p.0][p.1]);
    assert TrackedOn(m, c);
    k := IdOn(At(m, p), c).value;
    assert CellOnRun(m, c, p);
    var u := SegsOn(m, c)[k];
    var q := Shift(p, c, 1);
    assert InRun(u, c, p);
    assert !InRun(u, c, q) by {
      assert CellOk(m, m.grid[q.0][q.1]);
    }
    assert Along(q, c) == Along(p, c) + 1 && Across(q, c) == Across(p, c);
    assert Along(u.head, c) == Along(p, c);
    assert RunOwned(m, c, k, u);
    SameCoord(u.head, p, c);
    assert Open(m, NewCell(u, c, Head));
  }

  /** In a tracked state an unvisited cell on the grid leaves some segment with an alive head. */
  lemma UnvisitedLeavesAliveEnd(m: Maze, x: int, y: int) returns (c: Axis, k: int)
    requires Tracked(m) && InBounds(m, (x, y)) && !CellVisited(At(m, (x, y)))
    ensures k in SegsOn(m, c) && IsAlive(SegsOn(m, c)[k], Head)
  {
    if !CellVisited(At(m, (0, y))) {
      assert Shift((0, 0), Col, y) == (0, y);
      var i := FirstGap(m, (0, 0), Col, y);
      c := Col;
      k := GapHasAliveHead(m, Col, Shift((0, 0), Col, i));
    } else {
      assert Shift((0, y), Row, x) == (x, y);
      var i := FirstGap(m, (0, y), Row, x);
      c := Row;
      k := GapHasAliveHead(m, Row, Shift((0, y), Row, i));
    }
  }

  /** An open cell is a cell of the grid that is not visited. */
  lemma OpenIsUnvisited(m: Maze, n: Coord)
    requires Rectangular(m) && m.width >= 0 && m.height >= 0 && Open(m, n)
    ensures n in AllCells(m.width, m.height) && n !in VisitedCells(m)
  {
  }

  /** On a fully visited grid no end is alive. */
  lemma FullGridStuck(m: Maze, a: Axis)
    requires Inv(m) && m.width >= 0 && m.height >= 0 && VisitedCells(m) == AllCells(m.width, m.height)
    ensures Stuck(m, a)
  {
    forall k, f | k in SegsOn(m, a) ensures !IsAlive(SegsOn(m, a)[k], f) {
      if IsAlive(SegsOn(m, a)[k], f) {
        AliveEndOpen(m, a, k, f);
        OpenIsUnvisited(m, NewCell(SegsOn(m, a)[k], a, f));
      }
    }
  }

  /**
   * The generator can make no further move on either axis exactly when
   * every cell of the grid is visited: no alive end survives a full grid,
   * and an unvisited cell always leaves an alive end to reach it.
   */
  lemma Completeness(m: Maze)
    requires Tracked(m)
    ensures m.width >= 1 && m.height >= 1
    ensures Stuck(m, Row) && Stuck(m, Col) <==> VisitedCells(m) == AllCells(m.width, m.height)
  {
    VisitedBound(m);
    if VisitedCells(m) == AllCells(m.width, m.height) {
      FullGridStuck(m, Row);
      FullGridStuck(m, Col);
    } else {
      var q :| q in AllCells(m.width, m.height) && q !in VisitedCells(m);
      assert InBounds(m, q) && !CellVisited(m.grid[q.0][q.1]);
      var c, k := UnvisitedLeavesAliveEnd(m, q.0, q.1);
    }
  }
}
