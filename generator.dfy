/** The random game generator of GameModel.java (createNewGame with its
    helpers getFeasibeDirectionIslandMap and getPossibleIslandsInDirection).
    Random numbers and the shuffle become nondeterministic choices. */
module Generator {
  import opened Wrappers
  import opened Islands
  import opened Bridges
  import opened GameModelUtils
  import opened Rules

  /** The capacity every island is created with while the game is grown. */
  const GrowingCapacity := 8

  // ----- candidate cells in one direction -----

  /** The first `limit` cells of the stream that starts two cells from p in
      direction d and moves on in steps of two. */
  function Stride(p: Pos, d: CardinalPoint, limit: nat): (r: seq<Pos>)
    ensures |r| == limit
    ensures forall i :: 0 <= i < limit ==> r[i] == Step(p, d, 2 * (i + 1))
  {
    if limit == 0 then [] else Stride(p, d, limit - 1) + [Step(p, d, 2 * limit)]
  }

  /** The bound the stream is filtered by: the column (east, west) or row
      (south, north) of the nearest island in direction d, or else the edge of
      the board: 0 to the west and north, the number of columns or rows to the
      east and south. */
  function Restriction(islands: seq<Island>, p: Pos, d: CardinalPoint, nrOfRows: int, nrOfColumns: int): int {
    match Neighbour(islands, p, d)
    case Some(n) => if d == East || d == West then islands[n].column else islands[n].row
    case None =>
      match d
      case West => 0
      case North => 0
      case East => nrOfColumns
      case South => nrOfRows
  }

  /** The filter of the stream: to the west and north a cell may lie on the
      bound (>=), to the east and south it must lie before it (<). */
  predicate WithinRestriction(q: Pos, d: CardinalPoint, bound: int) {
    match d
    case West => q.column >= bound
    case North => q.row >= bound
    case East => q.column < bound
    case South => q.row < bound
  }

  /** The cells of `cells` that pass the filter, in order. */
  function InRange(cells: seq<Pos>, d: CardinalPoint, bound: int): (r: seq<Pos>)
    ensures forall q :: q in r <==> q in cells && WithinRestriction(q, d, bound)
  {
    if cells == [] then []
    else
      var rest := InRange(cells[..|cells| - 1], d, bound);
      assert forall q :: q in cells <==> q in cells[..|cells| - 1] || q == cells[|cells| - 1];
      if WithinRestriction(cells[|cells| - 1], d, bound) then rest + [cells[|cells| - 1]] else rest
  }

  /** The cell q lies on no listed bridge (the closed interval of isIslandInBridgeInervall). */
  predicate OffEverySpan(islands: seq<Island>, bridges: seq<Bridge>, q: Pos)
    requires AllEndsIn(bridges, |islands|)
  {
    forall j :: 0 <= j < |bridges| ==> !IsIslandInBridgeInterval(q, SpanOf(islands, bridges[j]))
  }

  /** A new island at q could be joined to the island at p: q lies on no
      bridge and the bridge from p to q would cross none. */
  predicate FeasibleCell(islands: seq<Island>, bridges: seq<Bridge>, p: Pos, q: Pos)
    requires AllEndsIn(bridges, |islands|)
  {
    OffEverySpan(islands, bridges, q) && CrossesNoBridge(islands, bridges, CanonicalSpan(p, q))
  }

  /** The feasible cells of `cells`, in order. */
  function FeasibleCells(islands: seq<Island>, bridges: seq<Bridge>, p: Pos, cells: seq<Pos>): (r: seq<Pos>)
    requires AllEndsIn(bridges, |islands|)
    ensures forall q :: q in r <==> q in cells && FeasibleCell(islands, bridges, p, q)
  {
    if cells == [] then []
    else
      var rest := FeasibleCells(islands, bridges, p, cells[..|cells| - 1]);
      assert forall q :: q in cells <==> q in cells[..|cells| - 1] || q == cells[|cells| - 1];
      if FeasibleCell(islands, bridges, p, cells[|cells| - 1]) then rest + [cells[|cells| - 1]] else rest
  }

  /** getPossibleIslandsInDirection (its value): the cells, at most `limit`
      of them two, four, ... cells from island k in direction d, where a new
      island could be placed and joined to island k. */
  function PossibleIslandsInDirection(direction: CardinalPoint, k: nat, currentBridges: seq<Bridge>,
                                      currentIslands: seq<Island>, limit: nat, nrOfColumns: int, nrOfRows: int)
    : seq<Pos>
    requires k < |currentIslands| && AllEndsIn(currentBridges, |currentIslands|)
  {
    var p := currentIslands[k].Position();
    var range := InRange(Stride(p, direction, limit), direction,
                         Restriction(currentIslands, p, direction, nrOfRows, nrOfColumns));
    FeasibleCells(currentIslands, currentBridges, p, range)
  }

  /** The loops of getPossibleIslandsInDirection: each cell of the filtered
      stream is kept when it lies on no bridge (the inner loop stops at the
      first bridge it lies on) and the bridge to it is buildable. */
  method GetPossibleIslandsInDirection(direction: CardinalPoint, k: nat, currentBridges: seq<Bridge>,
                                       currentIslands: seq<Island>, limit: nat, nrOfColumns: int, nrOfRows: int)
    returns (islandsInDirection: seq<Pos>)
    requires k < |currentIslands| && AllEndsIn(currentBridges, |currentIslands|)
    ensures islandsInDirection
            == PossibleIslandsInDirection(direction, k, currentBridges, currentIslands, limit, nrOfColumns, nrOfRows)
  {
    var p := currentIslands[k].Position();
    var range := InRange(Stride(p, direction, limit), direction,
                         Restriction(currentIslands, p, direction, nrOfRows, nrOfColumns));
    islandsInDirection := [];
    var i := 0;
    while i < |range|
      invariant 0 <= i <= |range|
      invariant islandsInDirection == FeasibleCells(currentIslands, currentBridges, p, range[..i])
    {
      assert range[..i + 1][..i] == range[..i];
      var q := range[i];
      var valid := true;
      var j := 0;
      while j < |currentBridges|
        invariant 0 <= j <= |currentBridges|
        invariant valid ==> forall m :: 0 <= m < j ==> !IsIslandInBridgeInterval(q, SpanOf(currentIslands, currentBridges[m]))
        invariant !valid ==> !OffEverySpan(currentIslands, currentBridges, q)
      {
        if IsIslandInBridgeInterval(q, SpanOf(currentIslands, currentBridges[j])) {
          valid := false;
          break;
        }
        j := j + 1;
      }
      if valid {
        var buildable := IsBridgeBuildable(p, q, currentIslands, currentBridges);
        if buildable {
          islandsInDirection := islandsInDirection + [q];
        }
      }
      i := i + 1;
    }
    assert range[..i] == range;
  }

  // ----- what the candidates satisfy -----

  /** With a limit of 1 (what createNewGame passes) the only candidate is the
      cell exactly two cells away, and it is a candidate exactly when it passes
      the bound's filter, lies on no bridge and the bridge to it crosses none. */
  lemma CandidatesAtDistanceTwo(direction: CardinalPoint, k: nat, s: State, nrOfColumns: int, nrOfRows: int, q: Pos)
    requires WellFormed(s) && k < |s.islands|
    ensures var p := s.islands[k].Position();
            q in PossibleIslandsInDirection(direction, k, s.bridges, s.islands, 1, nrOfColumns, nrOfRows)
            <==> && q == Step(p, direction, 2)
                 && WithinRestriction(q, direction, Restriction(s.islands, p, direction, nrOfRows, nrOfColumns))
                 && FeasibleCell(s.islands, s.bridges, p, q)
  {
    var p := s.islands[k].Position();
    assert Stride(p, direction, 1) == [Step(p, direction, 2)];
  }

  /** Every candidate lies strictly beyond island k in the direction asked
      for, an even number of cells away and at most 2 * limit cells away. */
  lemma CandidatesInDirection(direction: CardinalPoint, k: nat, s: State, limit: nat, nrOfColumns: int, nrOfRows: int)
    requires WellFormed(s) && k < |s.islands|
    ensures var p := s.islands[k].Position();
            forall q :: q in PossibleIslandsInDirection(direction, k, s.bridges, s.islands, limit, nrOfColumns, nrOfRows)
              ==> && Beyond(p, q, direction)
                  && Distance(p, q, direction) % 2 == 0
                  && 2 <= Distance(p, q, direction) <= 2 * limit
                  && FeasibleCell(s.islands, s.bridges, p, q)
  {
    var p := s.islands[k].Position();
    var cells := Stride(p, direction, limit);
    forall q | q in cells
      ensures Beyond(p, q, direction) && Distance(p, q, direction) % 2 == 0 && 2 <= Distance(p, q, direction) <= 2 * limit
    {
      var i :| 0 <= i < limit && cells[i] == q;
      assert q == Step(p, direction, 2 * (i + 1));
    }
  }

  /** Every island lies on the board. */
  predicate InBounds(islands: seq<Island>, nrOfRows: int, nrOfColumns: int) {
    forall k :: 0 <= k < |islands| ==> 0 <= islands[k].row < nrOfRows && 0 <= islands[k].column < nrOfColumns
  }

  /** A cell of the stream that passes the bound's filter lies on the board. */
  lemma CellInBounds(s: State, p: Pos, direction: CardinalPoint, i: nat, nrOfColumns: int, nrOfRows: int)
    requires InBounds(s.islands, nrOfRows, nrOfColumns)
    requires 0 <= p.row < nrOfRows && 0 <= p.column < nrOfColumns
    requires WithinRestriction(Step(p, direction, 2 * (i + 1)), direction,
                               Restriction(s.islands, p, direction, nrOfRows, nrOfColumns))
    ensures var q := Step(p, direction, 2 * (i + 1));
            0 <= q.row < nrOfRows && 0 <= q.column < nrOfColumns
  {
    match Neighbour(s.islands, p, direction)
    case Some(n) =>
      assert 0 <= s.islands[n].row < nrOfRows && 0 <= s.islands[n].column < nrOfColumns;
    case None =>
  }

  /** On a board whose islands all lie inside it, every candidate does too:
      the bound is the board's edge or the coordinate of an island. */
  lemma CandidatesInBounds(direction: CardinalPoint, k: nat, s: State, limit: nat, nrOfColumns: int, nrOfRows: int)
    requires WellFormed(s) && k < |s.islands| && InBounds(s.islands, nrOfRows, nrOfColumns)
    ensures forall q :: q in PossibleIslandsInDirection(direction, k, s.bridges, s.islands, limit, nrOfColumns, nrOfRows)
              ==> 0 <= q.row < nrOfRows && 0 <= q.column < nrOfColumns
  {
    var p := s.islands[k].Position();
    var bound := Restriction(s.islands, p, direction, nrOfRows, nrOfColumns);
    var cells := Stride(p, direction, limit);
    forall q | q in InRange(cells, direction, bound) ensures 0 <= q.row < nrOfRows && 0 <= q.column < nrOfColumns {
      var i :| 0 <= i < limit && cells[i] == q;
      CellInBounds(s, p, direction, i, nrOfColumns, nrOfRows);
    }
  }

  // ----- the tree that createNewGame grows -----

  /** Bridge b joins island t to an island that comes before it in the list. */
  predicate JoinsEarlier(b: Bridge, t: nat) {
    (b.island1 == t && b.island2 < t) || (b.island2 == t && b.island1 < t)
  }

  /** The bridge at position j joins island j + 1 to an earlier island: the
      bridges form a tree over the islands, grown one island at a time. */
  predicate TreeEdges(bridges: seq<Bridge>) {
    forall j :: 0 <= j < |bridges| ==> JoinsEarlier(bridges[j], j + 1)
  }

  /** Every bridge runs along a row or along a column. */
  predicate Straight(s: State)
    requires WellFormed(s)
  {
    forall j :: 0 <= j < |s.bridges| ==>
      var sp := SpanOf(s.islands, s.bridges[j]);
      sp.end1.row == sp.end2.row || sp.end1.column == sp.end2.column
  }

  /** No two islands share a cell. */
  predicate DistinctPlaces(islands: seq<Island>) {
    forall i, j :: 0 <= i < j < |islands| ==> islands[i].Position() != islands[j].Position()
  }

  /** What holds of the islands and bridges of createNewGame after each round:
      a tree of straight, non-crossing bridges over islands on distinct cells
      of the board, each island's count the bridges attached to it, each
      island's capacity the one it was created with. */
  predicate GrowingTree(s: State, nrOfRows: int, nrOfColumns: int) {
    && |s.islands| >= 1
    && |s.bridges| == |s.islands| - 1
    && TreeEdges(s.bridges)
    && Valid(s)
    && NoCrossing(s)
    && Straight(s)
    && InBounds(s.islands, nrOfRows, nrOfColumns)
    && DistinctPlaces(s.islands)
    && forall k :: 0 <= k < |s.islands| ==> s.islands[k].bridgeCapacity == GrowingCapacity
  }

  /** Once the tree has two islands, every island is an end of some bridge. */
  lemma EveryIslandBridged(s: State, m: nat)
    requires |s.bridges| == |s.islands| - 1 && TreeEdges(s.bridges) && m < |s.islands| && |s.islands| >= 2
    ensures exists j :: 0 <= j < |s.bridges| && s.bridges[j].Contains(m)
  {
    var j := if m == 0 then 0 else m - 1;
    assert JoinsEarlier(s.bridges[j], j + 1);
  }

  /** An island that is an end of a straight bridge lies in that bridge's closed interval. */
  lemma EndOnItsSpan(s: State, j: nat, m: nat)
    requires WellFormed(s) && Straight(s) && j < |s.bridges| && s.bridges[j].Contains(m)
    ensures IsIslandInBridgeInterval(s.islands[m].Position(), SpanOf(s.islands, s.bridges[j]))
  {
    assert EndsIn(s.bridges[j], |s.islands|);
    IntervalIsClosed(s.islands[m].Position(), SpanOf(s.islands, s.bridges[j]));
  }

  /** A candidate cell is never occupied. To the east and south the bound
      keeps it before the nearest island; to the west and north it may lie on
      the nearest island's cell, but that island is an end of a bridge, and
      the closed interval test rules the cell out. */
  lemma CandidateIsFree(direction: CardinalPoint, k: nat, s: State, limit: nat, nrOfColumns: int, nrOfRows: int,
                        q: Pos, m: nat)
    requires GrowingTree(s, nrOfRows, nrOfColumns) && k < |s.islands| && m < |s.islands|
    requires q in PossibleIslandsInDirection(direction, k, s.bridges, s.islands, limit, nrOfColumns, nrOfRows)
    ensures s.islands[m].Position() != q
  {
    var p := s.islands[k].Position();
    var bound := Restriction(s.islands, p, direction, nrOfRows, nrOfColumns);
    CandidatesInDirection(direction, k, s, limit, nrOfColumns, nrOfRows);
    assert WithinRestriction(q, direction, bound);
    if s.islands[m].Position() == q {
      assert Beyond(p, s.islands[m].Position(), direction);
      var nb := Neighbour(s.islands, p, direction);
      assert nb.Some?;
      var n := nb.value;
      assert Distance(p, s.islands[n].Position(), direction) <= Distance(p, q, direction);
      assert s.islands[n].Position() == q;
      assert m != k;
      EveryIslandBridged(s, n);
      var j :| 0 <= j < |s.bridges| && s.bridges[j].Contains(n);
      EndOnItsSpan(s, j, n);
      assert false;
    }
  }

  // ----- one round: a new island and the bridge to it -----

  /** The cells of the islands. */
  ghost function Places(islands: seq<Island>): set<Pos> {
    set k | 0 <= k < |islands| :: islands[k].Position()
  }

  /** The cells of the board. */
  ghost function Grid(nrOfRows: int, nrOfColumns: int): set<Pos> {
    set r, c | 0 <= r < nrOfRows && 0 <= c < nrOfColumns :: Pos(r, c)
  }

  /** A new island at q, created with the growing capacity, and a new bridge
      from island k to it (single or double), whose constructor attaches its
      weight to both ends; the new bridge is the only one marked as modified latest. */
  function Grow(s: State, k: nat, q: Pos, isDoubleBridge: bool): (r: State)
    requires WellFormed(s) && k < |s.islands|
    ensures |r.islands| == |s.islands| + 1 && |r.bridges| == |s.bridges| + 1
  {
    var added := s.islands + [NewIsland(q.row, q.column, GrowingCapacity)];
    var c := ConstructBridge(added, k, |s.islands|, isDoubleBridge, true);
    State(c.1, ClearLatest(s.bridges) + [c.0.SetModifiedLatest(true)])
  }

  lemma DegreeOfUntouched(bridges: seq<Bridge>, m: nat)
    requires forall j :: 0 <= j < |bridges| ==> !bridges[j].Contains(m)
    ensures Degree(bridges, m) == 0
  {
    if bridges != [] {
      DegreeOfUntouched(bridges[..|bridges| - 1], m);
    }
  }

  /** The positions and the spans after a round: the old islands keep their
      cells, the new island sits at q, the old bridges keep their spans and the
      new one spans p to q. */
  lemma GrowShape(s: State, k: nat, q: Pos, isDoubleBridge: bool)
    requires WellFormed(s) && k < |s.islands|
    ensures var r := Grow(s, k, q, isDoubleBridge);
            && WellFormed(r)
            && (forall m :: 0 <= m < |s.islands| ==>
                  r.islands[m].Position() == s.islands[m].Position() && r.islands[m].bridgeCapacity == s.islands[m].bridgeCapacity)
            && r.islands[|s.islands|].Position() == q
            && r.islands[|s.islands|].bridgeCapacity == GrowingCapacity
            && (forall a :: 0 <= a < |s.bridges| ==> SpanOf(r.islands, r.bridges[a]) == SpanOf(s.islands, s.bridges[a]))
            && SpanOf(r.islands, r.bridges[|s.bridges|]) == CanonicalSpan(s.islands[k].Position(), q)
            && r.bridges[|s.bridges|].modifiedLatest
            && (forall a :: 0 <= a < |s.bridges| ==> !r.bridges[a].modifiedLatest)
            && JoinsEarlier(r.bridges[|s.bridges|], |s.islands|)
            && (forall a :: 0 <= a < |s.bridges| ==>
                  r.bridges[a].island1 == s.bridges[a].island1 && r.bridges[a].island2 == s.bridges[a].island2)
  {
    var r := Grow(s, k, q, isDoubleBridge);
    var added := s.islands + [NewIsland(q.row, q.column, GrowingCapacity)];
    var nb := OrderedBridge(added, k, |s.islands|, isDoubleBridge);
    var n := |s.bridges|;
    assert r.bridges == ClearLatest(s.bridges) + [nb.SetModifiedLatest(true)];
    forall a | 0 <= a < n
      ensures EndsIn(r.bridges[a], |r.islands|) && SpanOf(r.islands, r.bridges[a]) == SpanOf(s.islands, s.bridges[a])
    {
      assert EndsIn(s.bridges[a], |s.islands|);
    }
    assert SpanOf(added, nb) == CanonicalSpan(s.islands[k].Position(), q);
  }

  lemma GrowKeepsCounts(s: State, k: nat, q: Pos, isDoubleBridge: bool)
    requires WellFormed(s) && CountsMatch(s) && k < |s.islands|
    ensures CountsMatch(Grow(s, k, q, isDoubleBridge))
  {
    var r := Grow(s, k, q, isDoubleBridge);
    var added := s.islands + [NewIsland(q.row, q.column, GrowingCapacity)];
    var nb := OrderedBridge(added, k, |s.islands|, isDoubleBridge);
    var cleared := ClearLatest(s.bridges);
    assert r.bridges == cleared + [nb.SetModifiedLatest(true)];
    forall m | 0 <= m < |r.islands| ensures r.islands[m].currentNrOfBridges == Degree(r.bridges, m) {
      DegreeOfAppend(cleared, nb.SetModifiedLatest(true), m);
      ClearLatestKeepsRelations(s.bridges);
      DegreeIgnoresLatest(cleared, s.bridges, m);
      if m == |s.islands| {
        forall j | 0 <= j < |s.bridges| ensures !s.bridges[j].Contains(m) {
          assert EndsIn(s.bridges[j], |s.islands|);
        }
        DegreeOfUntouched(s.bridges, m);
      }
    }
  }

  lemma GrowKeepsNoCrossing(s: State, k: nat, q: Pos, isDoubleBridge: bool)
    requires WellFormed(s) && NoCrossing(s) && k < |s.islands|
    requires CrossesNoBridge(s.islands, s.bridges, CanonicalSpan(s.islands[k].Position(), q))
    ensures WellFormed(Grow(s, k, q, isDoubleBridge)) && NoCrossing(Grow(s, k, q, isDoubleBridge))
  {
    var r := Grow(s, k, q, isDoubleBridge);
    var n := |s.bridges|;
    var newSpan := CanonicalSpan(s.islands[k].Position(), q);
    GrowShape(s, k, q, isDoubleBridge);
    forall a, b | 0 <= a < |r.bridges| && 0 <= b < |r.bridges|
      ensures !AreCrossingBridges(SpanOf(r.islands, r.bridges[a]), SpanOf(r.islands, r.bridges[b]))
    {
      if a < n && b == n {
        assert !AreCrossingBridges(SpanOf(s.islands, s.bridges[a]), newSpan);
      } else if a == n && b < n {
        CrossingIsSymmetric(newSpan, SpanOf(s.islands, s.bridges[b]));
      } else if a == n && b == n {
        SameOrientationNeverCrosses(newSpan, newSpan);
      } else {
        assert !AreCrossingBridges(SpanOf(s.islands, s.bridges[a]), SpanOf(s.islands, s.bridges[b]));
      }
    }
  }

  lemma GrowKeepsValid(s: State, k: nat, q: Pos, isDoubleBridge: bool)
    requires Valid(s) && k < |s.islands|
    ensures Valid(Grow(s, k, q, isDoubleBridge))
  {
    var r := Grow(s, k, q, isDoubleBridge);
    GrowShape(s, k, q, isDoubleBridge);
    GrowKeepsCounts(s, k, q, isDoubleBridge);
    forall j | 0 <= j < |r.bridges|
      ensures Manhattan(r.islands[r.bridges[j].island1].Position()) <= Manhattan(r.islands[r.bridges[j].island2].Position())
    {
      assert Manhattan(SpanOf(r.islands, r.bridges[j]).end1) <= Manhattan(SpanOf(r.islands, r.bridges[j]).end2);
    }
  }

  /** After a round whose new island lies on the board on a free cell, the
      islands lie on distinct cells of the board with the growing capacity. */
  lemma GrowKeepsPlaces(s: State, k: nat, q: Pos, isDoubleBridge: bool, nrOfRows: int, nrOfColumns: int)
    requires GrowingTree(s, nrOfRows, nrOfColumns) && k < |s.islands|
    requires 0 <= q.row < nrOfRows && 0 <= q.column < nrOfColumns
    requires forall m :: 0 <= m < |s.islands| ==> s.islands[m].Position() != q
    ensures var r := Grow(s, k, q, isDoubleBridge);
            && InBounds(r.islands, nrOfRows, nrOfColumns) && DistinctPlaces(r.islands)
            && forall m :: 0 <= m < |r.islands| ==> r.islands[m].bridgeCapacity == GrowingCapacity
  {
    GrowShape(s, k, q, isDoubleBridge);
  }

  /** After a round whose new island lies in a straight line from island k,
      the bridges still form a tree of straight bridges with one mark. */
  lemma GrowKeepsEdges(s: State, k: nat, q: Pos, direction: CardinalPoint, isDoubleBridge: bool)
    requires WellFormed(s) && Straight(s) && TreeEdges(s.bridges) && k < |s.islands|
    requires |s.bridges| == |s.islands| - 1
    requires Beyond(s.islands[k].Position(), q, direction)
    ensures var r := Grow(s, k, q, isDoubleBridge);
            WellFormed(r) && Straight(r) && TreeEdges(r.bridges) && AtMostOneLatest(r.bridges)
  {
    GrowShape(s, k, q, isDoubleBridge);
  }

  /** A round that places the new island on a candidate cell keeps the tree,
      and the new island's cell was free and lies on the board. */
  lemma GrowKeepsTree(direction: CardinalPoint, k: nat, s: State, nrOfColumns: int, nrOfRows: int,
                      q: Pos, isDoubleBridge: bool)
    requires GrowingTree(s, nrOfRows, nrOfColumns) && k < |s.islands|
    requires q in PossibleIslandsInDirection(direction, k, s.bridges, s.islands, 1, nrOfColumns, nrOfRows)
    ensures GrowingTree(Grow(s, k, q, isDoubleBridge), nrOfRows, nrOfColumns)
    ensures q !in Places(s.islands) && q in Grid(nrOfRows, nrOfColumns)
  {
    CandidateCell(direction, k, s, nrOfColumns, nrOfRows, q);
    CandidatesInDirection(direction, k, s, 1, nrOfColumns, nrOfRows);
    GrowKeepsPlaces(s, k, q, isDoubleBridge, nrOfRows, nrOfColumns);
    GrowKeepsEdges(s, k, q, direction, isDoubleBridge);
    GrowKeepsValid(s, k, q, isDoubleBridge);
    GrowKeepsNoCrossing(s, k, q, isDoubleBridge);
  }

  /** A candidate cell lies on the board and holds no island. */
  lemma CandidateCell(direction: CardinalPoint, k: nat, s: State, nrOfColumns: int, nrOfRows: int, q: Pos)
    requires GrowingTree(s, nrOfRows, nrOfColumns) && k < |s.islands|
    requires q in PossibleIslandsInDirection(direction, k, s.bridges, s.islands, 1, nrOfColumns, nrOfRows)
    ensures 0 <= q.row < nrOfRows && 0 <= q.column < nrOfColumns
    ensures forall m :: 0 <= m < |s.islands| ==> s.islands[m].Position() != q
    ensures q !in Places(s.islands) && q in Grid(nrOfRows, nrOfColumns)
  {
    CandidatesInBounds(direction, k, s, 1, nrOfColumns, nrOfRows);
    forall m | 0 <= m < |s.islands| ensures s.islands[m].Position() != q {
      CandidateIsFree(direction, k, s, 1, nrOfColumns, nrOfRows, q, m);
    }
    assert q == Pos(q.row, q.column);
  }

  /** A round adds the candidate's cell to the cells of the islands. */
  lemma GrowPlaces(s: State, k: nat, q: Pos, isDoubleBridge: bool)
    requires WellFormed(s) && k < |s.islands|
    ensures Places(Grow(s, k, q, isDoubleBridge).islands) == Places(s.islands) + {q}
  {
    var r := Grow(s, k, q, isDoubleBridge);
    GrowShape(s, k, q, isDoubleBridge);
    forall x | x in Places(s.islands) + {q} ensures x in Places(r.islands) {
      if x == q {
        assert r.islands[|s.islands|].Position() == x;
      } else {
        var m :| 0 <= m < |s.islands| && s.islands[m].Position() == x;
        assert r.islands[m].Position() == x;
      }
    }
  }

  lemma PlacesInGrid(islands: seq<Island>, nrOfRows: int, nrOfColumns: int)
    requires InBounds(islands, nrOfRows, nrOfColumns)
    ensures Places(islands) <= Grid(nrOfRows, nrOfColumns)
  {
    forall x | x in Places(islands) ensures x in Grid(nrOfRows, nrOfColumns) {
      assert x == Pos(x.row, x.column);
    }
  }

  // ----- the rounds -----

  /** Direction d gets an entry in the map of island k: island k has no
      bridge that way yet and some cell that way is a candidate. */
  predicate OpenDirection(s: State, k: nat, d: CardinalPoint, limit: nat, nrOfRows: int, nrOfColumns: int)
    requires WellFormed(s) && k < |s.islands|
  {
    !HasBridgeTowards(s.islands, s.bridges, k, d)
    && PossibleIslandsInDirection(d, k, s.bridges, s.islands, limit, nrOfColumns, nrOfRows) != []
  }

  /** The loop of getFeasibeDirectionIslandMap (its value): the directions,
      out of the four, in which island k has no bridge yet and some cell is a
      candidate, each with its candidate cells. */
  function FeasibleDirectionMap(s: State, k: nat, nrOfRows: int, nrOfColumns: int, limitBridgeLength: bool)
    : map<CardinalPoint, seq<Pos>>
    requires WellFormed(s) && k < |s.islands| && (limitBridgeLength || nrOfColumns >= 0)
  {
    var limit: nat := if limitBridgeLength then 1 else nrOfColumns;
    map d | d in {North, East, South, West} && OpenDirection(s, k, d, limit, nrOfRows, nrOfColumns)
          :: PossibleIslandsInDirection(d, k, s.bridges, s.islands, limit, nrOfColumns, nrOfRows)
  }

  /** getFeasibeDirectionIslandMap: the loop over the four directions. */
  method GetFeasibeDirectionIslandMap(k: nat, islands: seq<Island>, newGameBridges: seq<Bridge>,
                                      nrOfRows: int, nrOfColumns: int, limitBridgeLength: bool)
    returns (result: map<CardinalPoint, seq<Pos>>)
    requires k < |islands| && AllEndsIn(newGameBridges, |islands|) && (limitBridgeLength || nrOfColumns >= 0)
    ensures result == FeasibleDirectionMap(State(islands, newGameBridges), k, nrOfRows, nrOfColumns, limitBridgeLength)
  {
    var s := State(islands, newGameBridges);
    var limit: nat := if limitBridgeLength then 1 else nrOfColumns;
    var directionsWithBridge := GetBridgeDirectionsOfIsland(k, islands, newGameBridges);
    result := map[];
    var directions := [North, East, South, West];
    var i := 0;
    while i < |directions|
      invariant 0 <= i <= |directions|
      invariant forall d :: d in result <==> d in directions[..i] && OpenDirection(s, k, d, limit, nrOfRows, nrOfColumns)
      invariant forall d :: d in result ==>
                  result[d] == PossibleIslandsInDirection(d, k, newGameBridges, islands, limit, nrOfColumns, nrOfRows)
    {
      var direction := directions[i];
      assert directions[..i + 1] == directions[..i] + [direction];
      if direction !in directionsWithBridge {
        var feasible := GetPossibleIslandsInDirection(direction, k, newGameBridges, islands, limit, nrOfColumns, nrOfRows);
        if feasible != [] {
          result := result[direction := feasible];
        }
      }
      i := i + 1;
    }
    assert directions[..i] == directions;
    var expected := FeasibleDirectionMap(s, k, nrOfRows, nrOfColumns, limitBridgeLength);
    assert forall d :: d in result <==> d in expected;
  }

  /** The indices 0 .. n - 1, in order. */
  function Indices(n: nat): (r: seq<nat>)
    ensures |r| == n && forall i :: 0 <= i < n ==> r[i] == i
  {
    seq(n, i => i)
  }

  /** Collections.shuffle of the indices 0 .. n - 1: from the back, each
      position swaps with a position chosen among those before it or itself,
      so the result holds every index exactly once. */
  method Shuffle(n: nat) returns (order: seq<nat>)
    ensures multiset(order) == multiset(Indices(n))
  {
    order := Indices(n);
    var i := n;
    while i > 1
      invariant 0 <= i <= n
      invariant multiset(order) == multiset(Indices(n))
    {
      var j :| 0 <= j < i;
      assert j < |order| && i - 1 < |order| by {
        assert |order| == |multiset(order)| == n;
      }
      var swapped := order[i - 1 := order[j]][j := order[i - 1]];
      assert multiset(swapped) == multiset(order);
      order := swapped;
      i := i - 1;
    }
  }

  /** The marks loop of createNewGame (and of the build and remove paths):
      every bridge marked as not modified latest. */
  method ClearMarks(bridges: seq<Bridge>) returns (cleared: seq<Bridge>)
    ensures cleared == ClearLatest(bridges)
  {
    cleared := bridges;
    var i := 0;
    while i < |cleared|
      invariant 0 <= i <= |cleared| == |bridges|
      invariant forall j :: 0 <= j < i ==> cleared[j] == bridges[j].SetModifiedLatest(false)
      invariant forall j :: i <= j < |cleared| ==> cleared[j] == bridges[j]
    {
      cleared := cleared[i := cleared[i].SetModifiedLatest(false)];
      i := i + 1;
    }
  }

  /** The body of a successful round: the new island is added, the new
      bridge's constructor attaches its weight to both ends, the new bridge is
      marked as modified latest, every other mark is cleared, and the new
      bridge is added. */
  method AddIsland(newGameIslands: seq<Island>, newGameBridges: seq<Bridge>, index: nat, cell: Pos,
                   isDoubleBridge: bool)
    returns (islands: seq<Island>, bridges: seq<Bridge>)
    requires index < |newGameIslands| && AllEndsIn(newGameBridges, |newGameIslands|)
    ensures State(islands, bridges) == Grow(State(newGameIslands, newGameBridges), index, cell, isDoubleBridge)
  {
    islands := newGameIslands + [NewIsland(cell.row, cell.column, GrowingCapacity)];
    var c := ConstructBridge(islands, index, |islands| - 1, isDoubleBridge, true);
    islands := c.1;
    var cleared := ClearMarks(newGameBridges);
    bridges := cleared + [c.0.SetModifiedLatest(true)];
  }

  /** The entry of the map for a direction it holds: the candidates with a limit of 1. */
  lemma MapEntry(s: State, k: nat, nrOfRows: int, nrOfColumns: int, d: CardinalPoint)
    requires WellFormed(s) && k < |s.islands|
    requires d in FeasibleDirectionMap(s, k, nrOfRows, nrOfColumns, true)
    ensures FeasibleDirectionMap(s, k, nrOfRows, nrOfColumns, true)[d]
            == PossibleIslandsInDirection(d, k, s.bridges, s.islands, 1, nrOfColumns, nrOfRows)
  {
  }

  /** One round of the growing loop of createNewGame: the islands are visited
      in a shuffled order, and the tree grows at the first one that has a
      candidate, in a direction and at a cell chosen at random, with a bridge
      chosen at random to be single or double. The round fails, changing
      nothing, only when no island has a candidate; a successful round takes
      up one more cell of the board. */
  method GrowRound(newGameIslands: seq<Island>, newGameBridges: seq<Bridge>, nrOfRows: int, nrOfColumns: int)
    returns (islands: seq<Island>, bridges: seq<Bridge>, additionSucessfull: bool)
    requires GrowingTree(State(newGameIslands, newGameBridges), nrOfRows, nrOfColumns)
    ensures GrowingTree(State(islands, bridges), nrOfRows, nrOfColumns)
    ensures additionSucessfull ==>
              && |islands| == |newGameIslands| + 1
              && Grid(nrOfRows, nrOfColumns) - Places(islands) < Grid(nrOfRows, nrOfColumns) - Places(newGameIslands)
    ensures !additionSucessfull ==>
              && islands == newGameIslands && bridges == newGameBridges
              && forall k :: 0 <= k < |islands| ==>
                   FeasibleDirectionMap(State(islands, bridges), k, nrOfRows, nrOfColumns, true) == map[]
  {
    ghost var before := State(newGameIslands, newGameBridges);
    islands, bridges := newGameIslands, newGameBridges;
    PlacesInGrid(islands, nrOfRows, nrOfColumns);
    var randomTraversal := Shuffle(|islands|);
    var t := 0;
    while t < |randomTraversal|
      invariant 0 <= t <= |randomTraversal|
      invariant forall x :: x in randomTraversal[..t] ==>
                  x < |islands| && FeasibleDirectionMap(before, x, nrOfRows, nrOfColumns, true) == map[]
    {
      var index := randomTraversal[t];
      assert index in multiset(Indices(|islands|));
      assert randomTraversal[..t + 1] == randomTraversal[..t] + [index];
      var possibleDirections := GetFeasibeDirectionIslandMap(index, islands, bridges, nrOfRows, nrOfColumns, true);
      if |possibleDirections| == 0 {
        t := t + 1;
        continue;
      }
      var direction :| direction in possibleDirections;
      MapEntry(before, index, nrOfRows, nrOfColumns, direction);
      var islandsInDirection := possibleDirections[direction];
      var islandNR :| 0 <= islandNR < |islandsInDirection|;
      var cell := islandsInDirection[islandNR];
      var isDoubleBridge: bool :| true;
      islands, bridges := AddIsland(islands, bridges, index, cell, isDoubleBridge);
      GrowKeepsTree(direction, index, before, nrOfColumns, nrOfRows, cell, isDoubleBridge);
      GrowPlaces(before, index, cell, isDoubleBridge);
      return islands, bridges, true;
    }
    assert randomTraversal[..t] == randomTraversal;
    forall k | 0 <= k < |islands|
      ensures FeasibleDirectionMap(State(islands, bridges), k, nrOfRows, nrOfColumns, true) == map[]
    {
      assert Indices(|islands|)[k] == k;
      assert k in multiset(randomTraversal);
    }
    additionSucessfull := false;
  }

  /** The growing loop of createNewGame: a first island on a cell chosen at
      random, then rounds until the tree has nrOfIslands islands or a round
      fails. Every round takes up a cell of the board, so the loop ends. */
  method GrowTree(nrOfRows: int, nrOfColumns: int, nrOfIslands: int)
    returns (newGameIslands: seq<Island>, newGameBridges: seq<Bridge>, additionSucessfull: bool)
    requires nrOfRows > 0 && nrOfColumns > 0
    ensures GrowingTree(State(newGameIslands, newGameBridges), nrOfRows, nrOfColumns)
    ensures additionSucessfull <==> |newGameIslands| == nrOfIslands
    ensures !additionSucessfull ==>
              forall k :: 0 <= k < |newGameIslands| ==>
                FeasibleDirectionMap(State(newGameIslands, newGameBridges), k, nrOfRows, nrOfColumns, true) == map[]
  {
    var initalIslandRow :| 0 <= initalIslandRow < nrOfRows;
    var initalIslandColumn :| 0 <= initalIslandColumn < nrOfColumns;
    newGameIslands := [NewIsland(initalIslandRow, initalIslandColumn, GrowingCapacity)];
    newGameBridges := [];
    additionSucessfull := true;
    while |newGameIslands| != nrOfIslands && additionSucessfull
      invariant GrowingTree(State(newGameIslands, newGameBridges), nrOfRows, nrOfColumns)
      invariant !additionSucessfull ==>
                  && |newGameIslands| != nrOfIslands
                  && forall k :: 0 <= k < |newGameIslands| ==>
                       FeasibleDirectionMap(State(newGameIslands, newGameBridges), k, nrOfRows, nrOfColumns, true) == map[]
      decreases Grid(nrOfRows, nrOfColumns) - Places(newGameIslands), if additionSucessfull then 1 else 0
    {
      newGameIslands, newGameBridges, additionSucessfull := GrowRound(newGameIslands, newGameBridges, nrOfRows, nrOfColumns);
    }
  }

  // ----- the puzzle that is handed out -----

  /** The islands handed out: each island's capacity becomes the number of
      bridges it had in the tree, and its count is reset to 0. */
  function Freeze(islands: seq<Island>): (r: seq<Island>)
    ensures |r| == |islands|
    ensures forall k :: 0 <= k < |r| ==>
              && r[k].Position() == islands[k].Position()
              && r[k].bridgeCapacity == islands[k].currentNrOfBridges
              && r[k].currentNrOfBridges == 0
  {
    if islands == [] then []
    else
      var last := islands[|islands| - 1];
      Freeze(islands[..|islands| - 1]) + [last.SetBridgeCapacity(last.currentNrOfBridges).SetCurrentNrOfBridges(0)]
  }

  /** The freeze loop of createNewGame. */
  method FreezeCapacities(newGameIslands: seq<Island>) returns (islands: seq<Island>)
    ensures islands == Freeze(newGameIslands)
  {
    islands := newGameIslands;
    var i := 0;
    while i < |islands|
      invariant 0 <= i <= |islands| == |newGameIslands|
      invariant forall j :: 0 <= j < i ==> islands[j] == Freeze(newGameIslands)[j]
      invariant forall j :: i <= j < |islands| ==> islands[j] == newGameIslands[j]
    {
      var isl := islands[i];
      isl := isl.SetBridgeCapacity(isl.currentNrOfBridges);
      isl := isl.SetCurrentNrOfBridges(0);
      islands := islands[i := isl];
      i := i + 1;
    }
  }

  /** The tree's islands with every island's count taken as its capacity: the
      board on which the tree's bridges are a solution. */
  function Full(islands: seq<Island>): (r: seq<Island>)
    ensures |r| == |islands|
    ensures forall k :: 0 <= k < |r| ==> r[k] == islands[k].SetBridgeCapacity(islands[k].currentNrOfBridges)
  {
    seq(|islands|, k requires 0 <= k < |islands| => islands[k].SetBridgeCapacity(islands[k].currentNrOfBridges))
  }

  /** Every island of a tree, grown from island 0, can be reached from island 0. */
  lemma {:induction false} TreeIsConnected(bridges: seq<Bridge>, t: nat)
    requires TreeEdges(bridges) && t <= |bridges|
    ensures Connected(bridges, 0, t)
  {
    if t == 0 {
      ConnectedToItself(bridges, 0);
    } else {
      var b := bridges[t - 1];
      assert JoinsEarlier(b, t);
      var parent := if b.island1 == t then b.island2 else b.island1;
      TreeIsConnected(bridges, parent);
      assert Adjacent(bridges, parent, t);
      ConnectedStep(bridges, 0, parent, t);
    }
  }

  /** The tree's bridges solve the board whose capacities are the tree's counts. */
  lemma TreeSolvesFull(t: State, nrOfRows: int, nrOfColumns: int)
    requires GrowingTree(t, nrOfRows, nrOfColumns)
    ensures var sol := State(Full(t.islands), t.bridges);
            Playable(sol) && IsGameSolved(|t.islands|, sol) == Some(true)
  {
    var sol := State(Full(t.islands), t.bridges);
    forall j | 0 <= j < |t.bridges| ensures SpanOf(sol.islands, sol.bridges[j]) == SpanOf(t.islands, t.bridges[j]) {
      assert EndsIn(t.bridges[j], |t.islands|);
    }
    assert NoCrossing(sol);
    assert CanonicalOrder(sol);
    assert Playable(sol);
    forall x | 0 <= x < |t.islands| ensures Connected(sol.bridges, 0, x) {
      TreeIsConnected(t.bridges, x);
    }
    SolvedMeansComplete(|t.islands|, sol);
  }

  /** The islands handed out are those of the solved board after a restart. */
  lemma FreezeIsRestart(islands: seq<Island>, bridges: seq<Bridge>)
    ensures Restart(State(Full(islands), bridges)) == State(Freeze(islands), [])
  {
    var r := ResetCounts(Full(islands));
    forall k | 0 <= k < |islands| ensures r[k] == Freeze(islands)[k] {
      assert r[k] == Island(r[k].row, r[k].column, r[k].bridgeCapacity, r[k].currentNrOfBridges);
    }
  }

  /** The board createNewGame hands out when it succeeds: no bridges, and
      islands frozen from a grown tree; that board is the restart of a board
      that the tree's bridges solve, so every generated game has a solution. */
  lemma GeneratedGameIsSolvable(t: State, nrOfRows: int, nrOfColumns: int)
    requires GrowingTree(t, nrOfRows, nrOfColumns)
    ensures exists sol :: && Playable(sol) && IsGameSolved(|t.islands|, sol) == Some(true)
                          && Restart(sol) == State(Freeze(t.islands), [])
  {
    TreeSolvesFull(t, nrOfRows, nrOfColumns);
    FreezeIsRestart(t.islands, t.bridges);
    var sol := State(Full(t.islands), t.bridges);
    assert Playable(sol) && IsGameSolved(|t.islands|, sol) == Some(true) && Restart(sol) == State(Freeze(t.islands), []);
  }
}
