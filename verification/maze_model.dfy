/**
 * The state of the corridor-growing maze generator as a value: the grid of
 * cells (outer index x, inner index y), the two segment registries keyed by
 * id, and the two id counters.  The extension of one segment end by one cell
 * is the pure function Extend; the engine class in engine.dfy performs the
 * same updates field by field and is proved equal to it.
 */
module MazeModel {

  datatype Option<T> = None | Some(value: T)

  /** A row segment grows along x, a column segment along y. */
  datatype Axis = Row | Col

  /** The two growable ends of a segment. */
  datatype End = Head | Tail

  type Coord = (int, int)

  /** A grid cell: both ids are absent while the cell is unvisited. */
  datatype Cell = Cell(row: Option<int>, col: Option<int>)

  const Unvisited: Cell := Cell(None, None)

  /** One straight corridor: its length, its two end cells and whether each end may still grow. */
  datatype Segment = Segment(weight: int, head: Coord, tail: Coord, headAlive: bool, tailAlive: bool)

  /** The whole generator state apart from the phase bit. */
  datatype Maze = Maze(width: int, height: int, grid: seq<seq<Cell>>,
                       rows: map<int, Segment>, cols: map<int, Segment>,
                       rowId: int, colId: int)

  // ---------------------------------------------------------------------
  // Small vocabulary shared by the row and column cases
  // ---------------------------------------------------------------------

  function Other(a: Axis): Axis { if a == Row then Col else Row }

  function Opposite(e: End): End { if e == Head then Tail else Head }

  /** The direction in which an end grows: +1 for the head, -1 for the tail. */
  function Sign(e: End): int { if e == Head then 1 else -1 }

  /** The coordinate k steps from p along axis a. */
  function Shift(p: Coord, a: Axis, k: int): Coord {
    if a == Row then (p.0 + k, p.1) else (p.0, p.1 + k)
  }

  /** The component of p that varies along axis a, and the one that does not. */
  function Along(p: Coord, a: Axis): int { if a == Row then p.0 else p.1 }
  function Across(p: Coord, a: Axis): int { if a == Row then p.1 else p.0 }

  function IdOn(c: Cell, a: Axis): Option<int> { if a == Row then c.row else c.col }

  function SegsOn(m: Maze, a: Axis): map<int, Segment> { if a == Row then m.rows else m.cols }

  function CounterOn(m: Maze, a: Axis): int { if a == Row then m.rowId else m.colId }

  function WithSegs(m: Maze, a: Axis, mp: map<int, Segment>): Maze {
    if a == Row then m.(rows := mp) else m.(cols := mp)
  }

  function WithCounter(m: Maze, a: Axis, id: int): Maze {
    if a == Row then m.(rowId := id) else m.(colId := id)
  }

  function EndOf(s: Segment, e: End): Coord { if e == Head then s.head else s.tail }

  predicate IsAlive(s: Segment, e: End) { if e == Head then s.headAlive else s.tailAlive }

  function Kill(s: Segment, e: End): Segment {
    if e == Head then s.(headAlive := false) else s.(tailAlive := false)
  }

  /** Two segment records that differ at most in their liveness flags. */
  predicate SameShape(s: Segment, t: Segment) {
    s.weight == t.weight && s.head == t.head && s.tail == t.tail
  }

  // ---------------------------------------------------------------------
  // Grid queries (get_maze_cell, cell_visited)
  // ---------------------------------------------------------------------

  predicate Rectangular(m: Maze) {
    |m.grid| == m.width && forall x | 0 <= x < m.width :: |m.grid[x]| == m.height
  }

  predicate InBounds(m: Maze, p: Coord) {
    0 <= p.0 < m.width && 0 <= p.1 < m.height
  }

  function At(m: Maze, p: Coord): Cell
    requires Rectangular(m) && InBounds(m, p)
  {
    m.grid[p.0][p.1]
  }

  /** The cell at p, or None when p lies off the grid. */
  function GetMazeCell(m: Maze, p: Coord): (r: Option<Cell>)
    requires Rectangular(m)
    ensures r.None? <==> !InBounds(m, p)
    ensures r.Some? ==> r.value == m.grid[p.0][p.1]
  {
    if 0 <= p.0 < m.width && 0 <= p.1 < m.height then Some(m.grid[p.0][p.1]) else None
  }

  /** A cell counts as visited once its row id is set. */
  predicate CellVisited(c: Cell) { c.row.Some? }

  /** The test that decides whether an end may grow into p: p exists and is unvisited. */
  predicate Open(m: Maze, p: Coord)
    requires Rectangular(m)
  {
    var c := GetMazeCell(m, p);
    c.Some? && !CellVisited(c.value)
  }

  // ---------------------------------------------------------------------
  // initialise_new_rc
  // ---------------------------------------------------------------------

  /** The one-cell segment created at p on axis a. */
  function NewSegment(m: Maze, a: Axis, p: Coord): Segment
    requires Rectangular(m)
  {
    Segment(1, p, p, Open(m, Shift(p, a, 1)), Open(m, Shift(p, a, -1)))
  }

  /** Raises the counter of axis a and registers a new segment at p under the new id. */
  function AddSegment(m: Maze, a: Axis, p: Coord): (Maze, int)
    requires Rectangular(m)
  {
    var id := CounterOn(m, a) + 1;
    (WithCounter(WithSegs(m, a, SegsOn(m, a)[id := NewSegment(m, a, p)]), a, id), id)
  }

  // ---------------------------------------------------------------------
  // connect_rc_to_new_cell, stage by stage
  // ---------------------------------------------------------------------

  /** The cell an end grows into, and the cell one further. */
  function NewCell(s: Segment, a: Axis, e: End): Coord { Shift(EndOf(s, e), a, Sign(e)) }
  function AheadCell(s: Segment, a: Axis, e: End): Coord { Shift(EndOf(s, e), a, 2 * Sign(e)) }

  /** The segment after end e has grown into p. */
  function Grown(s: Segment, e: End, p: Coord): Segment {
    if e == Head then s.(weight := s.weight + 1, head := p)
    else s.(weight := s.weight + 1, tail := p)
  }

  function Write(g: seq<seq<Cell>>, p: Coord, c: Cell): seq<seq<Cell>>
    requires 0 <= p.0 < |g| && 0 <= p.1 < |g[p.0]|
  {
    g[p.0 := g[p.0][p.1 := c]]
  }

  /** Kills end e of the segment registered under id; a missing id changes nothing. */
  function KillIn(mp: map<int, Segment>, id: Option<int>, e: End): (r: map<int, Segment>)
    ensures r.Keys == mp.Keys
    ensures forall j | j in mp :: SameShape(r[j], mp[j])
    ensures forall j, f | j in mp :: IsAlive(r[j], f) <==> IsAlive(mp[j], f) && !(id == Some(j) && f == e)
  {
    if id.Some? && id.value in mp then mp[id.value := Kill(mp[id.value], e)] else mp
  }

  /**
   * The first part of an extension: a fresh perpendicular segment for the new
   * cell, the grown segment, and the new cell written into the grid.
   */
  function Grow(m: Maze, a: Axis, k: int, e: End): (r: Maze)
    requires Rectangular(m) && k in SegsOn(m, a)
    requires InBounds(m, NewCell(SegsOn(m, a)[k], a, e))
    ensures r.width == m.width && r.height == m.height
    ensures CounterOn(r, a) == CounterOn(m, a) && CounterOn(r, Other(a)) == CounterOn(m, Other(a)) + 1
    ensures var s := SegsOn(m, a)[k]; var n := NewCell(s, a, e);
      && SegsOn(r, a) == SegsOn(m, a)[k := Grown(s, e, n)]
      && SegsOn(r, Other(a)) == SegsOn(m, Other(a))[CounterOn(r, Other(a)) := NewSegment(m, Other(a), n)]
      && r.grid == Write(m.grid, n, CellIds(a, k, CounterOn(r, Other(a))))
  {
    var s := SegsOn(m, a)[k];
    var n := NewCell(s, a, e);
    var added := AddSegment(m, Other(a), n);
    WithSegs(added.0, a, SegsOn(m, a)[k := Grown(s, e, n)]).(grid := Write(m.grid, n, CellIds(a, k, added.1)))
  }

  /** The ids written into a new cell: the growing segment's own id on its axis, the fresh one across. */
  function CellIds(a: Axis, own: int, perp: int): Cell {
    if a == Row then Cell(Some(own), Some(perp)) else Cell(Some(perp), Some(own))
  }

  /**
   * The cell ahead of the new end is off the grid or visited: the new end
   * dies, and when that cell exists the facing end of its own segment on
   * the same axis dies too.
   */
  function AheadRule(m: Maze, a: Axis, k: int, e: End, ahead: Coord): (r: Maze)
    requires Rectangular(m)
    ensures r.grid == m.grid && r.width == m.width && r.height == m.height
    ensures r.rowId == m.rowId && r.colId == m.colId
    ensures SegsOn(r, Other(a)) == SegsOn(m, Other(a))
    ensures SegsOn(r, a).Keys == SegsOn(m, a).Keys
    ensures forall j | j in SegsOn(m, a) :: SameShape(SegsOn(r, a)[j], SegsOn(m, a)[j])
    ensures forall j, f | j in SegsOn(m, a) ::
      IsAlive(SegsOn(r, a)[j], f) <==>
        IsAlive(SegsOn(m, a)[j], f) && !(j == k && f == e && !Open(m, ahead)) &&
        !(f == Opposite(e) && InBounds(m, ahead) && !Open(m, ahead) && IdOn(At(m, ahead), a) == Some(j))
  {
    if Open(m, ahead) then m
    else
      var killed := WithSegs(m, a, KillIn(SegsOn(m, a), Some(k), e));
      if InBounds(m, ahead) then
        WithSegs(killed, a, KillIn(SegsOn(killed, a), IdOn(At(m, ahead), a), Opposite(e)))
      else killed
  }

  /** The i-th perpendicular offset checked for collateral kills: first +1, then -1. */
  function CollateralOffset(i: nat): int { if i == 0 then 1 else -1 }

  /** The end of a perpendicular segment that faces a cell lying at offset d from it. */
  function FacingEnd(d: int): End { if d < 0 then Head else Tail }

  /**
   * Neighbour n + d on the perpendicular axis is visited and its perpendicular
   * segment j has end f facing n.
   */
  predicate Faces(m: Maze, b: Axis, n: Coord, d: int, j: int, f: End)
    requires Rectangular(m)
  {
    var q := Shift(n, b, d);
    InBounds(m, q) && CellVisited(At(m, q)) && IdOn(At(m, q), b) == Some(j) && f == FacingEnd(d)
  }

  /** End f of perpendicular segment j is among those killed by the first i collateral checks. */
  predicate FacingKilled(m: Maze, b: Axis, n: Coord, i: nat, j: int, f: End)
    requires Rectangular(m)
  {
    (i >= 1 && Faces(m, b, n, CollateralOffset(0), j, f)) ||
    (i >= 2 && Faces(m, b, n, CollateralOffset(1), j, f))
  }

  /** The first i collateral checks around the new cell n of an extension along axis a. */
  function Collateral(m: Maze, a: Axis, n: Coord, i: nat): (r: Maze)
    requires Rectangular(m)
    ensures r.grid == m.grid && r.width == m.width && r.height == m.height
    ensures r.rowId == m.rowId && r.colId == m.colId
    ensures SegsOn(r, a) == SegsOn(m, a)
    ensures SegsOn(r, Other(a)).Keys == SegsOn(m, Other(a)).Keys
    ensures forall j | j in SegsOn(m, Other(a)) :: SameShape(SegsOn(r, Other(a))[j], SegsOn(m, Other(a))[j])
    ensures forall j, f | j in SegsOn(m, Other(a)) ::
      IsAlive(SegsOn(r, Other(a))[j], f) <==>
        IsAlive(SegsOn(m, Other(a))[j], f) && !FacingKilled(m, Other(a), n, i, j, f)
    decreases i
  {
    if i == 0 then m
    else
      var prev := Collateral(m, a, n, i - 1);
      var b := Other(a);
      var d := CollateralOffset(i - 1);
      var q := Shift(n, b, d);
      if InBounds(prev, q) && CellVisited(At(prev, q)) then
        WithSegs(prev, b, KillIn(SegsOn(prev, b), IdOn(At(prev, q), b), FacingEnd(d)))
      else prev
  }

  /** A successful connect_rc_to_new_cell: end e of segment k of axis a grows by one cell. */
  function Extend(m: Maze, a: Axis, k: int, e: End): Maze
    requires Rectangular(m) && k in SegsOn(m, a)
    requires InBounds(m, NewCell(SegsOn(m, a)[k], a, e))
  {
    var s := SegsOn(m, a)[k];
    var grown := Grow(m, a, k, e);
    assert Rectangular(grown);
    var blocked := AheadRule(grown, a, k, e, AheadCell(s, a, e));
    Collateral(blocked, a, NewCell(s, a, e), 2)
  }

  // ---------------------------------------------------------------------
  // The bookkeeping invariant
  // ---------------------------------------------------------------------

  /** A cell is unvisited or carries both ids, each registered on its axis. */
  predicate CellOk(m: Maze, c: Cell) {
    && (c.row.Some? <==> c.col.Some?)
    && (c.row.Some? ==> c.row.value in m.rows && c.col.value in m.cols)
  }

  ghost predicate CellsOk(m: Maze)
    requires Rectangular(m)
  {
    forall x, y | 0 <= x < m.width && 0 <= y < m.height :: CellOk(m, m.grid[x][y])
  }

  /** A straight run along a, tail before head, whose weight is the number of cells between them. */
  predicate Straight(s: Segment, a: Axis) {
    && Across(s.head, a) == Across(s.tail, a)
    && Along(s.head, a) >= Along(s.tail, a)
    && s.weight == Along(s.head, a) - Along(s.tail, a) + 1
  }

  /** An alive end can grow: the cell one step beyond it is on the grid and unvisited. */
  ghost predicate LiveOk(m: Maze, a: Axis, s: Segment, e: End)
    requires Rectangular(m)
  {
    IsAlive(s, e) ==> Open(m, NewCell(s, a, e))
  }

  ghost predicate SegOk(m: Maze, a: Axis, k: int, s: Segment)
    requires Rectangular(m)
  {
    && 1 <= k <= CounterOn(m, a)
    && Straight(s, a)
    && InBounds(m, s.head) && InBounds(m, s.tail)
    && IdOn(At(m, s.head), a) == Some(k) && IdOn(At(m, s.tail), a) == Some(k)
    && LiveOk(m, a, s, Head) && LiveOk(m, a, s, Tail)
  }

  ghost predicate SegsOk(m: Maze, a: Axis)
    requires Rectangular(m)
  {
    forall k | k in SegsOn(m, a) :: SegOk(m, a, k, SegsOn(m, a)[k])
  }

  ghost predicate Inv(m: Maze) {
    && Rectangular(m)
    && 0 <= m.rowId && 0 <= m.colId
    && CellsOk(m)
    && SegsOk(m, Row) && SegsOk(m, Col)
  }

  /** The set of visited cells. */
  ghost function VisitedCells(m: Maze): set<Coord>
    requires Rectangular(m)
  {
    set x, y | 0 <= x < m.width && 0 <= y < m.height && CellVisited(m.grid[x][y]) :: (x, y)
  }

  /** Segment j of axis a has end f killed by the ahead rule of an extension of s at end e. */
  ghost predicate AheadKilled(m: Maze, a: Axis, s: Segment, e: End, j: int, f: End)
    requires Rectangular(m)
  {
    var q := AheadCell(s, a, e);
    InBounds(m, q) && CellVisited(At(m, q)) && IdOn(At(m, q), a) == Some(j) && f == Opposite(e)
  }

  // ---------------------------------------------------------------------
  // The initial state (main.py, lines 26-48)
  // ---------------------------------------------------------------------

  /** The origin's row 1 and column 1, each with only its head alive. */
  const Origin: Segment := Segment(1, (0, 0), (0, 0), true, false)

  /** The cell the seed grid holds at (x, y): only the origin is visited. */
  function SeedCell(x: int, y: int): Cell {
    if x == 0 && y == 0 then Cell(Some(1), Some(1)) else Unvisited
  }

  function SeedGrid(width: nat, height: nat): (g: seq<seq<Cell>>)
    ensures |g| == width
    ensures forall x | 0 <= x < width :: |g[x]| == height
    ensures forall x, y | 0 <= x < width && 0 <= y < height :: g[x][y] == SeedCell(x, y)
  {
    seq(width, x => seq(height, y => SeedCell(x, y)))
  }

  function Seed(width: nat, height: nat): Maze {
    Maze(width, height, SeedGrid(width, height), map[1 := Origin], map[1 := Origin], 1, 1)
  }

  lemma SeedInv(width: nat, height: nat)
    requires width >= 2 && height >= 2
    ensures Inv(Seed(width, height))
    ensures VisitedCells(Seed(width, height)) == {(0, 0)}
  {
    var m := Seed(width, height);
    assert CellsOk(m);
    SeedSegsOk(width, height, Row);
    SeedSegsOk(width, height, Col);
    forall q | q in VisitedCells(m) ensures q == (0, 0) { }
    assert (0, 0) in VisitedCells(m) by { assert CellVisited(m.grid[0][0]); }
  }

  lemma SeedSegsOk(width: nat, height: nat, a: Axis)
    requires width >= 2 && height >= 2
    ensures Rectangular(Seed(width, height)) && SegsOk(Seed(width, height), a)
  {
    var m := Seed(width, height);
    assert SegsOn(m, a) == map[1 := Origin];
    SeedOriginOk(width, height, a);
    OnlyOriginOk(m, a);
  }

  lemma OnlyOriginOk(m: Maze, a: Axis)
    requires Rectangular(m) && SegsOn(m, a) == map[1 := Origin] && SegOk(m, a, 1, Origin)
    ensures SegsOk(m, a)
  {
    forall k | k in SegsOn(m, a) ensures SegOk(m, a, k, SegsOn(m, a)[k]) {
      assert k == 1;
    }
  }

  /** Room on both axes is what makes the hard-coded alive heads of the seed valid. */
  lemma SeedOriginOk(width: nat, height: nat, a: Axis)
    requires width >= 2 && height >= 2
    ensures Rectangular(Seed(width, height)) && SegOk(Seed(width, height), a, 1, Origin)
  {
    var m := Seed(width, height);
    assert IdOn(At(m, Origin.head), a) == Some(1);
    assert LiveOk(m, a, Origin, Tail);
    assert LiveOk(m, a, Origin, Head) by {
      assert At(m, Shift((0, 0), a, 1)) == Unvisited;
    }
  }

  // ---------------------------------------------------------------------
  // Facts about the grid after the write
  // ---------------------------------------------------------------------

  lemma WrittenAt(m: Maze, g: Maze, n: Coord, c: Cell)
    requires Rectangular(m) && InBounds(m, n)
    requires g.width == m.width && g.height == m.height && g.grid == Write(m.grid, n, c)
    ensures Rectangular(g)
    ensures At(g, n) == c
    ensures forall q | InBounds(m, q) && q != n :: At(g, q) == At(m, q)
    ensures forall q | q != n :: Open(g, q) == Open(m, q)
  {
    forall q | InBounds(m, q) && q != n ensures At(g, q) == At(m, q) {
      if q.0 != n.0 { } else { assert q.1 != n.1; }
    }
  }

  /** In a valid state the two ids of a visited cell are present and registered. */
  lemma OwnedIsVisited(m: Maze, a: Axis, q: Coord, j: int)
    requires Inv(m) && InBounds(m, q) && IdOn(At(m, q), a) == Some(j)
    ensures CellVisited(At(m, q)) && !Open(m, q) && j in SegsOn(m, a)
  {
    assert CellOk(m, m.grid[q.0][q.1]);
  }

  /** An alive end of a segment in a valid state grows into an unvisited cell on the grid. */
  lemma AliveEndOpen(m: Maze, a: Axis, k: int, e: End)
    requires Inv(m) && k in SegsOn(m, a) && IsAlive(SegsOn(m, a)[k], e)
    ensures InBounds(m, NewCell(SegsOn(m, a)[k], a, e)) && Open(m, NewCell(SegsOn(m, a)[k], a, e))
    ensures !CellVisited(At(m, NewCell(SegsOn(m, a)[k], a, e)))
  {
    assert SegOk(m, a, k, SegsOn(m, a)[k]);
  }

  /** A visited cell that differs from an unvisited one. */
  lemma VisitedIsNot(m: Maze, a: Axis, q: Coord, j: int, n: Coord)
    requires Inv(m) && InBounds(m, q) && IdOn(At(m, q), a) == Some(j) && Open(m, n)
    ensures q != n && CellVisited(At(m, q)) && j in SegsOn(m, a)
  {
    OwnedIsVisited(m, a, q, j);
  }

  // ---------------------------------------------------------------------
  // What one extension does
  // ---------------------------------------------------------------------

  /** The grid, dimensions and counters after an extension. */
  lemma ExtendFrame(m: Maze, a: Axis, k: int, e: End)
    requires Rectangular(m) && k in SegsOn(m, a) && InBounds(m, NewCell(SegsOn(m, a)[k], a, e))
    ensures var n := NewCell(SegsOn(m, a)[k], a, e);
      var r := Extend(m, a, k, e); var pid := CounterOn(m, Other(a)) + 1;
      && r.width == m.width && r.height == m.height
      && r.grid == Write(m.grid, n, CellIds(a, k, pid))
      && CounterOn(r, a) == CounterOn(m, a) && CounterOn(r, Other(a)) == pid
  {
  }

  /** The registry of the growing axis after an extension: the grown segment, and nothing else reshaped. */
  lemma ExtendSameAxisShape(m: Maze, a: Axis, k: int, e: End)
    requires Rectangular(m) && k in SegsOn(m, a) && InBounds(m, NewCell(SegsOn(m, a)[k], a, e))
    ensures var s := SegsOn(m, a)[k]; var n := NewCell(s, a, e); var mp := SegsOn(m, a);
      var rp := SegsOn(Extend(m, a, k, e), a);
      && rp.Keys == mp.Keys
      && (forall j | j in mp :: SameShape(rp[j], if j == k then Grown(s, e, n) else mp[j]))
  {
  }

  /** The ahead cell is not the new cell, so the write leaves it as it was. */
  lemma GrowKeepsAhead(m: Maze, a: Axis, k: int, e: End)
    requires Rectangular(m) && k in SegsOn(m, a) && InBounds(m, NewCell(SegsOn(m, a)[k], a, e))
    ensures var s := SegsOn(m, a)[k]; var g := Grow(m, a, k, e); var ahead := AheadCell(s, a, e);
      && Rectangular(g) && InBounds(g, ahead) == InBounds(m, ahead)
      && Open(g, ahead) == Open(m, ahead)
      && (InBounds(m, ahead) ==> At(g, ahead) == At(m, ahead))
  {
    var s := SegsOn(m, a)[k];
    var n := NewCell(s, a, e);
    WrittenAt(m, Grow(m, a, k, e), n, CellIds(a, k, CounterOn(m, Other(a)) + 1));
    assert AheadCell(s, a, e) != n;
  }

  /** On the growing axis only the ahead rule kills: the new end, and the facing end of the segment ahead. */
  lemma ExtendSameAxisFlags(m: Maze, a: Axis, k: int, e: End)
    requires Rectangular(m) && k in SegsOn(m, a) && InBounds(m, NewCell(SegsOn(m, a)[k], a, e))
    ensures var s := SegsOn(m, a)[k]; var mp := SegsOn(m, a);
      var rp := SegsOn(Extend(m, a, k, e), a);
      && rp.Keys == mp.Keys
      && (forall j, f | j in mp :: IsAlive(rp[j], f) <==>
            IsAlive(mp[j], f) && !(j == k && f == e && !Open(m, AheadCell(s, a, e))) && !AheadKilled(m, a, s, e, j, f))
  {
    GrowKeepsAhead(m, a, k, e);
    var s := SegsOn(m, a)[k];
    var g := Grow(m, a, k, e);
    forall j, f | j in SegsOn(m, a) ensures IsAlive(SegsOn(g, a)[j], f) == IsAlive(SegsOn(m, a)[j], f) {
    }
  }

  /** The perpendicular registry after an extension: one new segment, and only collateral kills. */
  lemma ExtendPerpAxis(m: Maze, a: Axis, k: int, e: End)
    requires Rectangular(m) && k in SegsOn(m, a) && InBounds(m, NewCell(SegsOn(m, a)[k], a, e))
    ensures var s := SegsOn(m, a)[k]; var n := NewCell(s, a, e); var b := Other(a);
      var pid := CounterOn(m, b) + 1; var mp := SegsOn(m, b)[pid := NewSegment(m, b, n)];
      var rp := SegsOn(Extend(m, a, k, e), b);
      && rp.Keys == mp.Keys
      && (forall j | j in mp :: SameShape(rp[j], mp[j]))
      && (forall j, f | j in mp :: IsAlive(rp[j], f) <==> IsAlive(mp[j], f) && !FacingKilled(m, b, n, 2, j, f))
  {
    var s := SegsOn(m, a)[k];
    var n := NewCell(s, a, e);
    var b := Other(a);
    var pid := CounterOn(m, b) + 1;
    var g := Grow(m, a, k, e);
    WrittenAt(m, g, n, CellIds(a, k, pid));
    var h := AheadRule(g, a, k, e, AheadCell(s, a, e));
    forall j, f ensures FacingKilled(h, b, n, 2, j, f) == FacingKilled(m, b, n, 2, j, f) {
      assert Shift(n, b, 1) != n && Shift(n, b, -1) != n;
    }
  }

  /** The grid after an extension in cell terms: the new cell gets both ids, every other cell is kept. */
  lemma ExtendGrid(m: Maze, a: Axis, k: int, e: End)
    requires Rectangular(m) && k in SegsOn(m, a) && InBounds(m, NewCell(SegsOn(m, a)[k], a, e))
    ensures var n := NewCell(SegsOn(m, a)[k], a, e); var r := Extend(m, a, k, e);
      && r.width == m.width && r.height == m.height && Rectangular(r)
      && At(r, n) == CellIds(a, k, CounterOn(m, Other(a)) + 1)
      && (forall q | InBounds(m, q) && q != n :: At(r, q) == At(m, q))
      && (forall q | q != n :: Open(r, q) == Open(m, q))
  {
    var n := NewCell(SegsOn(m, a)[k], a, e);
    ExtendFrame(m, a, k, e);
    WrittenAt(m, Extend(m, a, k, e), n, CellIds(a, k, CounterOn(m, Other(a)) + 1));
  }

  /**
   * connect_rc_to_new_cell on an alive end of a valid state: the new cell
   * was on the grid and unvisited (so the write never overwrites a visited
   * cell or leaves the grid), it receives the segment's own id and a freshly
   * allocated perpendicular id, it is the only cell that changes, and only
   * the perpendicular counter moves, by one.
   */
  lemma ExtendWritesCell(m: Maze, a: Axis, k: int, e: End)
    requires Inv(m) && k in SegsOn(m, a) && IsAlive(SegsOn(m, a)[k], e)
    ensures InBounds(m, NewCell(SegsOn(m, a)[k], a, e))
    ensures !CellVisited(At(m, NewCell(SegsOn(m, a)[k], a, e)))
    ensures var n := NewCell(SegsOn(m, a)[k], a, e);
      var r := Extend(m, a, k, e); var pid := CounterOn(m, Other(a)) + 1;
      && r.width == m.width && r.height == m.height && Rectangular(r)
      && At(r, n) == CellIds(a, k, pid)
      && (forall q | InBounds(m, q) && q != n :: At(r, q) == At(m, q))
      && CounterOn(r, a) == CounterOn(m, a) && CounterOn(r, Other(a)) == pid
  {
    AliveEndOpen(m, a, k, e);
    ExtendFrame(m, a, k, e);
    ExtendGrid(m, a, k, e);
  }

  /**
   * The perpendicular segment an extension allocates: its id was unused, it
   * is the only new key of either registry, and no collateral kill touches it,
   * so it is exactly the one-cell segment initialise_new_rc builds at the new cell.
   */
  lemma ExtendNewSegment(m: Maze, a: Axis, k: int, e: End)
    requires Inv(m) && k in SegsOn(m, a) && IsAlive(SegsOn(m, a)[k], e)
    ensures var n := NewCell(SegsOn(m, a)[k], a, e);
      var r := Extend(m, a, k, e); var pid := CounterOn(m, Other(a)) + 1;
      && pid !in SegsOn(m, Other(a))
      && SegsOn(r, a).Keys == SegsOn(m, a).Keys
      && SegsOn(r, Other(a)).Keys == SegsOn(m, Other(a)).Keys + {pid}
      && SegsOn(r, Other(a))[pid] == NewSegment(m, Other(a), n)
  {
    AliveEndOpen(m, a, k, e);
    var n := NewCell(SegsOn(m, a)[k], a, e);
    var b := Other(a);
    var pid := CounterOn(m, b) + 1;
    FreshIdUnused(m, b, n, pid);
    ExtendSameAxisShape(m, a, k, e);
    NewSegmentUntouched(m, a, k, e, n, pid);
  }

  /** A fresh id names no registered segment and no cell, so no collateral check can reach it. */
  lemma FreshIdUnused(m: Maze, b: Axis, n: Coord, pid: int)
    requires Inv(m) && pid == CounterOn(m, b) + 1
    ensures pid !in SegsOn(m, b)
    ensures !FacingKilled(m, b, n, 2, pid, Head) && !FacingKilled(m, b, n, 2, pid, Tail)
  {
    forall f, d | d == 1 || d == -1 ensures !Faces(m, b, n, d, pid, f) {
      var q := Shift(n, b, d);
      if InBounds(m, q) && IdOn(At(m, q), b) == Some(pid) {
        OwnedIsVisited(m, b, q, pid);
      }
    }
  }

  lemma NewSegmentUntouched(m: Maze, a: Axis, k: int, e: End, n: Coord, pid: int)
    requires Rectangular(m) && k in SegsOn(m, a) && n == NewCell(SegsOn(m, a)[k], a, e) && InBounds(m, n)
    requires pid == CounterOn(m, Other(a)) + 1 && pid !in SegsOn(m, Other(a))
    requires !FacingKilled(m, Other(a), n, 2, pid, Head) && !FacingKilled(m, Other(a), n, 2, pid, Tail)
    ensures SegsOn(Extend(m, a, k, e), Other(a)).Keys == SegsOn(m, Other(a)).Keys + {pid}
    ensures SegsOn(Extend(m, a, k, e), Other(a))[pid] == NewSegment(m, Other(a), n)
  {
    var b := Other(a);
    ExtendPerpAxis(m, a, k, e);
    var t := SegsOn(Extend(m, a, k, e), b)[CounterOn(m, b) + 1];
    assert IsAlive(t, Head) == IsAlive(NewSegment(m, b, n), Head);
    assert IsAlive(t, Tail) == IsAlive(NewSegment(m, b, n), Tail);
  }

  /**
   * The chosen segment after a successful extension: one cell heavier, the
   * chosen end moved one step along the axis, the other end in place, still
   * a straight run whose weight counts its cells, and the moved end alive
   * exactly when the cell two steps beyond the old end is on the grid and
   * unvisited.
   */
  lemma ExtendGrowsSegment(m: Maze, a: Axis, k: int, e: End)
    requires Inv(m) && k in SegsOn(m, a) && IsAlive(SegsOn(m, a)[k], e)
    ensures k in SegsOn(Extend(m, a, k, e), a)
    ensures var s := SegsOn(m, a)[k]; var t := SegsOn(Extend(m, a, k, e), a)[k];
      && t.weight == s.weight + 1
      && EndOf(t, e) == Shift(EndOf(s, e), a, Sign(e))
      && EndOf(t, Opposite(e)) == EndOf(s, Opposite(e))
      && Straight(t, a)
      && (IsAlive(t, e) <==> Open(m, AheadCell(s, a, e)))
      && (IsAlive(t, Opposite(e)) ==> IsAlive(s, Opposite(e)))
  {
    AliveEndOpen(m, a, k, e);
    ExtendSameAxisShape(m, a, k, e);
    ExtendSameAxisFlags(m, a, k, e);
    assert SegOk(m, a, k, SegsOn(m, a)[k]);
  }

  // ---------------------------------------------------------------------
  // The invariant is preserved by every extension
  // ---------------------------------------------------------------------

  lemma ExtendCellsOk(m: Maze, a: Axis, k: int, e: End)
    requires Inv(m) && k in SegsOn(m, a) && IsAlive(SegsOn(m, a)[k], e)
    ensures Rectangular(Extend(m, a, k, e)) && CellsOk(Extend(m, a, k, e))
  {
    AliveEndOpen(m, a, k, e);
    ExtendGrid(m, a, k, e);
    ExtendNewSegment(m, a, k, e);
    var r := Extend(m, a, k, e);
    CellsOkAfterWrite(m, r, NewCell(SegsOn(m, a)[k], a, e), a, k, CounterOn(m, Other(a)) + 1);
  }

  /** Writing a cell whose two ids are registered keeps every cell consistent, as long as no id is unregistered. */
  lemma CellsOkAfterWrite(m: Maze, r: Maze, n: Coord, a: Axis, k: int, pid: int)
    requires Rectangular(m) && Rectangular(r) && r.width == m.width && r.height == m.height && CellsOk(m)
    requires InBounds(m, n) && At(r, n) == CellIds(a, k, pid)
    requires forall q | InBounds(m, q) && q != n :: At(r, q) == At(m, q)
    requires m.rows.Keys <= r.rows.Keys && m.cols.Keys <= r.cols.Keys
    requires k in SegsOn(r, a) && pid in SegsOn(r, Other(a))
    ensures CellsOk(r)
  {
    forall x, y | 0 <= x < r.width && 0 <= y < r.height ensures CellOk(r, r.grid[x][y]) {
      if (x, y) != n {
        assert At(r, (x, y)) == At(m, (x, y));
        assert CellOk(m, m.grid[x][y]);
      }
    }
  }

  /** The grown segment is valid after the write: its new end owns the new cell and points at the ahead cell. */
  lemma GrownOk(m: Maze, r: Maze, a: Axis, k: int, e: End, s: Segment, t: Segment, n: Coord)
    requires Rectangular(m) && Rectangular(r) && r.width == m.width && r.height == m.height
    requires CounterOn(r, a) == CounterOn(m, a)
    requires SegOk(m, a, k, s) && n == NewCell(s, a, e) && InBounds(m, n) && EndOf(s, Opposite(e)) != n
    requires IdOn(At(r, n), a) == Some(k)
    requires forall q | InBounds(m, q) && q != n :: At(r, q) == At(m, q)
    requires forall q | q != n :: Open(r, q) == Open(m, q)
    requires EndOf(t, e) == n && EndOf(t, Opposite(e)) == EndOf(s, Opposite(e)) && Straight(t, a)
    requires IsAlive(t, e) ==> Open(m, AheadCell(s, a, e))
    requires IsAlive(t, Opposite(e)) ==> IsAlive(s, Opposite(e))
    ensures SegOk(r, a, k, t)
  {
    assert NewCell(t, a, e) == AheadCell(s, a, e) != n;
    assert NewCell(t, a, Opposite(e)) == NewCell(s, a, Opposite(e)) != n;
    assert LiveOk(r, a, t, e) && LiveOk(r, a, t, Opposite(e));
    assert IdOn(At(r, EndOf(t, Opposite(e))), a) == Some(k);
    assert IdOn(At(r, t.head), a) == Some(k) && IdOn(At(r, t.tail), a) == Some(k);
  }

  /**
   * Another segment j of the growing axis is valid after the write: an end
   * of it that pointed at the new cell was either the grown end itself
   * (impossible, the two ends are owned by different ids) or faced it across
   * the ahead cell, and then the ahead rule killed it.
   */
  lemma SameAxisOk(m: Maze, r: Maze, a: Axis, k: int, e: End, s: Segment, n: Coord, j: int, u: Segment, v: Segment)
    requires Rectangular(m) && Rectangular(r) && r.width == m.width && r.height == m.height
    requires CounterOn(r, a) == CounterOn(m, a)
    requires SegOk(m, a, k, s) && n == NewCell(s, a, e) && InBounds(m, n)
    requires SegOk(m, a, j, u) && j != k && u.head != n && u.tail != n
    requires CellVisited(At(m, EndOf(u, Opposite(e))))
    requires forall q | InBounds(m, q) && q != n :: At(r, q) == At(m, q)
    requires forall q | q != n :: Open(r, q) == Open(m, q)
    requires SameShape(v, u)
    requires forall f :: IsAlive(v, f) ==> IsAlive(u, f) && !AheadKilled(m, a, s, e, j, f)
    ensures SegOk(r, a, j, v)
  {
    SameAxisMissesNew(m, a, k, e, s, n, j, u);
    assert At(r, u.head) == At(m, u.head) && At(r, u.tail) == At(m, u.tail);
    assert LiveOk(r, a, v, e);
    assert LiveOk(r, a, v, Opposite(e));
    assert LiveOk(r, a, v, Head) && LiveOk(r, a, v, Tail);
  }

  /**
   * Another segment of the growing axis points at the new cell only with the
   * end facing the grown one, and then that end's cell is the ahead cell.
   */
  lemma SameAxisMissesNew(m: Maze, a: Axis, k: int, e: End, s: Segment, n: Coord, j: int, u: Segment)
    requires Rectangular(m) && SegOk(m, a, k, s) && n == NewCell(s, a, e)
    requires SegOk(m, a, j, u) && j != k
    requires CellVisited(At(m, EndOf(u, Opposite(e))))
    ensures NewCell(u, a, e) != n
    ensures NewCell(u, a, Opposite(e)) == n ==> AheadKilled(m, a, s, e, j, Opposite(e))
  {
    assert IdOn(At(m, EndOf(u, e)), a) == Some(j) && IdOn(At(m, EndOf(s, e)), a) == Some(k);
    assert EndOf(u, e) != EndOf(s, e);
    if NewCell(u, a, Opposite(e)) == n {
      assert EndOf(u, Opposite(e)) == AheadCell(s, a, e);
    }
  }

  /** The segment an extension allocates is valid after the write. */
  lemma NewPerpOk(m: Maze, r: Maze, b: Axis, pid: int, n: Coord, v: Segment)
    requires Rectangular(m) && Rectangular(r) && r.width == m.width && r.height == m.height
    requires CounterOn(r, b) == pid >= 1
    requires InBounds(m, n) && IdOn(At(r, n), b) == Some(pid)
    requires forall q | q != n :: Open(r, q) == Open(m, q)
    requires v == NewSegment(m, b, n)
    ensures SegOk(r, b, pid, v)
  {
    assert Shift(n, b, 1) != n && Shift(n, b, -1) != n;
    assert LiveOk(r, b, v, Head) && LiveOk(r, b, v, Tail);
  }

  /** An older perpendicular segment is valid after the write: an end facing the new cell was killed by a collateral check. */
  lemma PerpAxisOk(m: Maze, r: Maze, b: Axis, n: Coord, j: int, u: Segment, v: Segment)
    requires Rectangular(m) && Rectangular(r) && r.width == m.width && r.height == m.height
    requires CounterOn(r, b) >= CounterOn(m, b)
    requires SegOk(m, b, j, u) && u.head != n && u.tail != n
    requires CellVisited(At(m, u.head)) && CellVisited(At(m, u.tail))
    requires forall q | InBounds(m, q) && q != n :: At(r, q) == At(m, q)
    requires forall q | q != n :: Open(r, q) == Open(m, q)
    requires SameShape(v, u)
    requires forall f :: IsAlive(v, f) ==> IsAlive(u, f) && !FacingKilled(m, b, n, 2, j, f)
    ensures SegOk(r, b, j, v)
  {
    if IsAlive(v, Head) {
      assert !Faces(m, b, n, -1, j, Head);
      assert NewCell(u, b, Head) != n;
    }
    if IsAlive(v, Tail) {
      assert !Faces(m, b, n, 1, j, Tail);
      assert NewCell(u, b, Tail) != n;
    }
    assert LiveOk(r, b, v, Head) && LiveOk(r, b, v, Tail);
  }

  /** Every segment of the growing axis is valid after an extension. */
  lemma ExtendSameAxisOk(m: Maze, a: Axis, k: int, e: End)
    requires Inv(m) && k in SegsOn(m, a) && IsAlive(SegsOn(m, a)[k], e)
    ensures Rectangular(Extend(m, a, k, e)) && SegsOk(Extend(m, a, k, e), a)
  {
    AliveEndOpen(m, a, k, e);
    ExtendGrid(m, a, k, e);
    ExtendFrame(m, a, k, e);
    ExtendSameAxisShape(m, a, k, e);
    ExtendSameAxisFlags(m, a, k, e);
    ExtendGrowsSegment(m, a, k, e);
    var r := Extend(m, a, k, e);
    var s := SegsOn(m, a)[k];
    var n := NewCell(s, a, e);
    assert SegOk(m, a, k, s);
    forall j | j in SegsOn(r, a) ensures SegOk(r, a, j, SegsOn(r, a)[j]) {
      if j == k {
        VisitedIsNot(m, a, EndOf(s, Opposite(e)), k, n);
        GrownOk(m, r, a, k, e, s, SegsOn(r, a)[k], n);
      } else {
        var u := SegsOn(m, a)[j];
        assert SegOk(m, a, j, u);
        VisitedIsNot(m, a, u.head, j, n);
        VisitedIsNot(m, a, u.tail, j, n);
        OwnedIsVisited(m, a, EndOf(u, Opposite(e)), j);
        SameAxisOk(m, r, a, k, e, s, n, j, u, SegsOn(r, a)[j]);
      }
    }
  }

  /** Every segment of the perpendicular axis is valid after an extension. */
  lemma ExtendPerpAxisOk(m: Maze, a: Axis, k: int, e: End)
    requires Inv(m) && k in SegsOn(m, a) && IsAlive(SegsOn(m, a)[k], e)
    ensures Rectangular(Extend(m, a, k, e)) && SegsOk(Extend(m, a, k, e), Other(a))
  {
    AliveEndOpen(m, a, k, e);
    ExtendGrid(m, a, k, e);
    ExtendFrame(m, a, k, e);
    ExtendNewSegment(m, a, k, e);
    ExtendPerpAxis(m, a, k, e);
    var r := Extend(m, a, k, e);
    var b := Other(a);
    var n := NewCell(SegsOn(m, a)[k], a, e);
    var pid := CounterOn(m, b) + 1;
    forall j | j in SegsOn(r, b) ensures SegOk(r, b, j, SegsOn(r, b)[j]) {
      if j == pid {
        NewPerpOk(m, r, b, pid, n, SegsOn(r, b)[pid]);
      } else {
        var u := SegsOn(m, b)[j];
        assert SegOk(m, b, j, u);
        VisitedIsNot(m, b, u.head, j, n);
        VisitedIsNot(m, b, u.tail, j, n);
        PerpAxisOk(m, r, b, n, j, u, SegsOn(r, b)[j]);
      }
    }
  }

  /**
   * Every extension of an alive end preserves the invariant: afterwards,
   * too, every alive end's next cell is on the grid and unvisited.
   */
  lemma ExtendInv(m: Maze, a: Axis, k: int, e: End)
    requires Inv(m) && k in SegsOn(m, a) && IsAlive(SegsOn(m, a)[k], e)
    ensures Inv(Extend(m, a, k, e))
  {
    AliveEndOpen(m, a, k, e);
    ExtendFrame(m, a, k, e);
    ExtendCellsOk(m, a, k, e);
    ExtendSameAxisOk(m, a, k, e);
    ExtendPerpAxisOk(m, a, k, e);
    var r := Extend(m, a, k, e);
    assert SegsOk(r, a) && SegsOk(r, Other(a));
    assert SegsOk(r, Row) && SegsOk(r, Col);
  }

  // ---------------------------------------------------------------------
  // Visited cells: each extension visits exactly one new cell
  // ---------------------------------------------------------------------

  /** An extension visits exactly one cell that was not visited before: the new cell. */
  lemma ExtendVisits(m: Maze, a: Axis, k: int, e: End)
    requires Inv(m) && k in SegsOn(m, a) && IsAlive(SegsOn(m, a)[k], e)
    ensures Rectangular(Extend(m, a, k, e))
    ensures NewCell(SegsOn(m, a)[k], a, e) !in VisitedCells(m)
    ensures VisitedCells(Extend(m, a, k, e)) == VisitedCells(m) + {NewCell(SegsOn(m, a)[k], a, e)}
  {
    AliveEndOpen(m, a, k, e);
    ExtendGrid(m, a, k, e);
    var r := Extend(m, a, k, e);
    var n := NewCell(SegsOn(m, a)[k], a, e);
    assert At(m, n) == m.grid[n.0][n.1];
    forall q ensures q in VisitedCells(r) <==> q in VisitedCells(m) || q == n {
      if InBounds(m, q) {
        assert At(r, q) == r.grid[q.0][q.1] && At(m, q) == m.grid[q.0][q.1];
      }
    }
  }

  /** Every cell of a width by height grid. */
  ghost function AllCells(width: nat, height: nat): set<Coord> {
    set x, y | 0 <= x < width && 0 <= y < height :: (x, y)
  }

  ghost function Column(x: int, height: nat): set<Coord> {
    set y | 0 <= y < height :: (x, y)
  }

  lemma {:induction false} ColumnSize(x: int, height: nat)
    ensures |Column(x, height)| == height
  {
    if height > 0 {
      ColumnSize(x, height - 1);
      forall q | q in Column(x, height) ensures q in Column(x, height - 1) + {(x, height - 1)} {
        if q.1 < height - 1 { assert q == (x, q.1); }
      }
      assert Column(x, height) == Column(x, height - 1) + {(x, height - 1)};
    } else {
      assert Column(x, height) == {};
    }
  }

  lemma AllCellsSplit(width: nat, height: nat)
    requires width > 0
    ensures AllCells(width, height) == AllCells(width - 1, height) + Column(width - 1, height)
    ensures AllCells(width - 1, height) !! Column(width - 1, height)
  {
    var rest := AllCells(width - 1, height);
    var last := Column(width - 1, height);
    forall q | q in AllCells(width, height) ensures q in rest + last {
      assert q == (q.0, q.1);
      if q.0 < width - 1 { assert q in rest; } else { assert q in last; }
    }
  }

  /** The grid has width * height cells. */
  lemma {:induction false} AllCellsSize(width: nat, height: nat)
    ensures |AllCells(width, height)| == width * height
  {
    if width > 0 {
      AllCellsSize(width - 1, height);
      ColumnSize(width - 1, height);
      AllCellsSplit(width, height);
      assert (width - 1) * height + height == width * height;
    } else {
      assert AllCells(width, height) == {};
    }
  }

  /** At most every cell of the grid can be visited. */
  lemma VisitedBound(m: Maze)
    requires Rectangular(m) && m.height >= 0
    ensures VisitedCells(m) <= AllCells(m.width, m.height)
    ensures |VisitedCells(m)| <= m.width * m.height
  {
    AllCellsSize(m.width, m.height);
    assert VisitedCells(m) <= AllCells(m.width, m.height);
    SubsetSize(VisitedCells(m), AllCells(m.width, m.height));
  }

  lemma SubsetSize(s: set<Coord>, t: set<Coord>)
    requires s <= t
    ensures |s| <= |t|
  {
    assert t == s + (t - s);
  }
}
