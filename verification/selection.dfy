/*
 * Which segment a step extends, and at which end (the selection half of
 * step in main.py): the segments of the current axis that still have an
 * alive end are listed in registry order, ranked by how far their weight is
 * from the target corridor length, the first POPULATION_FUNC(n) of them are
 * eligible, and one eligible segment and one of its alive ends are chosen.
 * The random choices themselves are indices supplied by the caller.
 */
module Selection {
  import opened MazeModel

  /** TARGET_LENGTH: corridors whose weight is closest to this are preferred. */
  const TargetLength: int := 5

  /** minimum: the number of eligible candidates for small populations. */
  const Minimum: nat := 50

  /** A registry entry that may be chosen: its id and its record. */
  datatype Candidate = Candidate(id: int, seg: Segment)

  predicate HasAliveEnd(s: Segment) { s.headAlive || s.tailAlive }

  /**
   * The entries with an alive end among ids 1..n, in increasing id order.
   * Ids are allocated in increasing order and never removed, so this is the
   * registry's insertion order, the order in which its items are listed.
   */
  function AliveIn(mp: map<int, Segment>, n: nat): (r: seq<Candidate>)
    ensures forall i | 0 <= i < |r| ::
      r[i].id in mp && mp[r[i].id] == r[i].seg && HasAliveEnd(r[i].seg) && 1 <= r[i].id <= n
    ensures forall i, j | 0 <= i < j < |r| :: r[i].id < r[j].id
    ensures forall id | id in mp && 1 <= id <= n && HasAliveEnd(mp[id]) ::
      Candidate(id, mp[id]) in r
  {
    if n == 0 then []
    else
      var earlier := AliveIn(mp, n - 1);
      if n in mp && HasAliveEnd(mp[n]) then earlier + [Candidate(n, mp[n])] else earlier
  }

  /** How far a candidate's weight is from the target length. */
  function Deviation(c: Candidate): nat {
    if c.seg.weight <= TargetLength then TargetLength - c.seg.weight else c.seg.weight - TargetLength
  }

  predicate Ranked(xs: seq<Candidate>) {
    forall i, j | 0 <= i < j < |xs| :: Deviation(xs[i]) <= Deviation(xs[j])
  }

  /** The candidates of xs whose deviation is d, in their order in xs. */
  function WithDeviation(xs: seq<Candidate>, d: nat): seq<Candidate> {
    if xs == [] then []
    else (if Deviation(xs[0]) == d then [xs[0]] else []) + WithDeviation(xs[1..], d)
  }

  /** Places c before the first candidate of xs whose deviation is at least its own. */
  function Insert(c: Candidate, xs: seq<Candidate>): seq<Candidate> {
    if xs == [] || Deviation(c) <= Deviation(xs[0]) then [c] + xs
    else [xs[0]] + Insert(c, xs[1..])
  }

  /**
   * sorted(population, key=-deviation, reverse=True): the candidates by
   * increasing deviation, equal deviations keeping their original order
   * (the sort is stable, and reversing it keeps equal elements in order).
   */
  function Rank(xs: seq<Candidate>): seq<Candidate> {
    if xs == [] then [] else Insert(xs[0], Rank(xs[1..]))
  }

  lemma {:induction false} InsertPermutes(c: Candidate, xs: seq<Candidate>)
    ensures multiset(Insert(c, xs)) == multiset(xs) + multiset{c}
  {
    if !(xs == [] || Deviation(c) <= Deviation(xs[0])) {
      InsertPermutes(c, xs[1..]);
      assert xs == [xs[0]] + xs[1..];
    }
  }

  lemma {:induction false} InsertKeepsRanked(c: Candidate, xs: seq<Candidate>)
    requires Ranked(xs)
    ensures Ranked(Insert(c, xs))
  {
    if !(xs == [] || Deviation(c) <= Deviation(xs[0])) {
      var rest := Insert(c, xs[1..]);
      InsertKeepsRanked(c, xs[1..]);
      InsertPermutes(c, xs[1..]);
      forall i | 0 <= i < |rest| ensures Deviation(xs[0]) <= Deviation(rest[i]) {
        assert rest[i] in multiset(rest);
        if rest[i] != c {
          assert rest[i] in multiset(xs[1..]);
          var k :| 0 <= k < |xs[1..]| && xs[1..][k] == rest[i];
          assert xs[k + 1] == rest[i];
        }
      }
    }
  }

  lemma {:induction false} InsertStable(c: Candidate, xs: seq<Candidate>, d: nat)
    ensures WithDeviation(Insert(c, xs), d) == (if Deviation(c) == d then [c] else []) + WithDeviation(xs, d)
  {
    if xs == [] || Deviation(c) <= Deviation(xs[0]) {
      assert ([c] + xs)[1..] == xs;
    } else {
      var rest := Insert(c, xs[1..]);
      InsertStable(c, xs[1..], d);
      assert ([xs[0]] + rest)[1..] == rest;
    }
  }

  /**
   * The ranking is the stable sort by deviation: ordered by deviation, a
   * permutation of its input, and, for every deviation, the candidates with
   * that deviation appear in the same order as in the input.
   */
  lemma {:induction false} RankIsStableSort(xs: seq<Candidate>)
    ensures Ranked(Rank(xs))
    ensures multiset(Rank(xs)) == multiset(xs)
    ensures forall d: nat :: WithDeviation(Rank(xs), d) == WithDeviation(xs, d)
  {
    if xs != [] {
      RankIsStableSort(xs[1..]);
      InsertKeepsRanked(xs[0], Rank(xs[1..]));
      InsertPermutes(xs[0], Rank(xs[1..]));
      assert xs == [xs[0]] + xs[1..];
      forall d: nat ensures WithDeviation(Rank(xs), d) == WithDeviation(xs, d) {
        InsertStable(xs[0], Rank(xs[1..]), d);
      }
    }
  }

  /**
   * POPULATION_FUNC: how many of the n ranked candidates are eligible;
   * a third of them, rounded up, above 150, and otherwise the minimum of 50.
   */
  function PopulationFunc(n: nat): (r: nat)
    ensures n <= 3 * Minimum ==> r == Minimum
    ensures n > 3 * Minimum ==> 3 * (r - 1) < n <= 3 * r
  {
    if n > 3 * Minimum then (n + 2) / 3 else Minimum
  }

  /**
   * The length of the slice sorted_population[:POPULATION_FUNC(n)]: never
   * more than n, never empty when n is not, and all candidates while n is
   * at most the minimum.
   */
  function Eligible(n: nat): (r: nat)
    ensures r <= n
    ensures n >= 1 ==> r >= 1
    ensures n <= Minimum ==> r == n
    ensures n > Minimum ==> r == PopulationFunc(n)
  {
    var k := PopulationFunc(n);
    if k < n then k else n
  }

  /** The entries of axis a with an alive end, in registry order (alive_rows / alive_cols). */
  function Population(m: Maze, a: Axis): seq<Candidate> {
    AliveIn(SegsOn(m, a), if CounterOn(m, a) < 0 then 0 else CounterOn(m, a))
  }

  /** The ranked population of axis a (sorted_population). */
  function Pool(m: Maze, a: Axis): seq<Candidate> {
    Rank(Population(m, a))
  }

  /**
   * Every candidate in the pool is a registered segment of axis a, with its
   * current record and an alive end; and under the invariant every segment
   * with an alive end is in the pool, so the pool is empty exactly when no
   * segment of axis a can grow.
   */
  lemma PoolMembers(m: Maze, a: Axis)
    requires Inv(m)
    ensures forall c | c in Pool(m, a) :: c.id in SegsOn(m, a) && SegsOn(m, a)[c.id] == c.seg && HasAliveEnd(c.seg)
    ensures forall id | id in SegsOn(m, a) && HasAliveEnd(SegsOn(m, a)[id]) :: Candidate(id, SegsOn(m, a)[id]) in Pool(m, a)
    ensures |Pool(m, a)| == 0 <==> forall id | id in SegsOn(m, a) :: !HasAliveEnd(SegsOn(m, a)[id])
  {
    var xs := Population(m, a);
    RankIsStableSort(xs);
    assert multiset(Pool(m, a)) == multiset(xs);
    forall c | c in Pool(m, a) ensures c in xs {
      assert c in multiset(Pool(m, a));
    }
    forall id | id in SegsOn(m, a) && HasAliveEnd(SegsOn(m, a)[id]) ensures Candidate(id, SegsOn(m, a)[id]) in Pool(m, a) {
      assert SegOk(m, a, id, SegsOn(m, a)[id]);
      assert Candidate(id, SegsOn(m, a)[id]) in multiset(xs);
    }
  }

  /**
   * The weighting: an eligible candidate deviates from the target length no
   * more than any candidate cut off by the slice.
   */
  lemma EligibleAreBest(m: Maze, a: Axis, pick: nat, other: nat)
    requires pick < Eligible(|Pool(m, a)|) <= other < |Pool(m, a)|
    ensures Deviation(Pool(m, a)[pick]) <= Deviation(Pool(m, a)[other])
  {
    RankIsStableSort(Population(m, a));
  }

  /**
   * What step hands to connect_rc_to_new_cell is a registered segment with
   * its current record and an alive end, so the dead-end ValueError and the
   * unknown-id KeyError never arise from step.
   */
  lemma ChosenIsAlive(m: Maze, a: Axis, pick: nat, endChoice: nat)
    requires Inv(m) && pick < |Pool(m, a)| && endChoice < |EndOptions(Pool(m, a)[pick].seg)|
    ensures var c := Pool(m, a)[pick];
      && c.id in SegsOn(m, a) && SegsOn(m, a)[c.id] == c.seg
      && IsAlive(SegsOn(m, a)[c.id], EndOptions(c.seg)[endChoice])
  {
    PoolMembers(m, a);
    var c := Pool(m, a)[pick];
    assert c in Pool(m, a);
    assert EndOptions(c.seg)[endChoice] in EndOptions(c.seg);
  }

  /** ht_options: the alive ends of the chosen segment, the head first. */
  function EndOptions(s: Segment): (r: seq<End>)
    ensures forall e :: e in r <==> IsAlive(s, e)
    ensures |r| >= 1 <==> HasAliveEnd(s)
    ensures |r| <= 2 && (|r| == 2 ==> r == [Head, Tail])
  {
    (if s.headAlive then [Head] else []) + (if s.tailAlive then [Tail] else [])
  }
}
