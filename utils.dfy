/** Queries on islands and bridges that the game rules are built from
    (GameModelUtils.java): neighbours, crossing-aware reachability, bridge
    lookup, the span test, removal of a bridge and the connectivity search. */
module GameModelUtils {
  import opened Wrappers
  import opened Islands
  import opened Bridges

  datatype CardinalPoint = North | East | South | West

  /** q lies strictly beyond p in direction d, on p's row (east, west) or column (south, north). */
  predicate Beyond(p: Pos, q: Pos, d: CardinalPoint) {
    match d
    case East => q.row == p.row && q.column > p.column
    case West => q.row == p.row && q.column < p.column
    case South => q.column == p.column && q.row > p.row
    case North => q.column == p.column && q.row < p.row
  }

  /** How far q lies from p in direction d. */
  function Distance(p: Pos, q: Pos, d: CardinalPoint): int {
    match d
    case East => q.column - p.column
    case West => p.column - q.column
    case South => q.row - p.row
    case North => p.row - q.row
  }

  /** The cell at distance `steps` from p in direction d. */
  function Step(p: Pos, d: CardinalPoint, steps: int): Pos {
    match d
    case East => Pos(p.row, p.column + steps)
    case West => Pos(p.row, p.column - steps)
    case South => Pos(p.row + steps, p.column)
    case North => Pos(p.row - steps, p.column)
  }

  /** Island `best`, among the first `upTo` islands, lies beyond p in direction d,
      no island among them lies beyond p closer to it, and every one as close
      comes after it in the list. */
  predicate IsNearestAmong(islands: seq<Island>, p: Pos, d: CardinalPoint, upTo: nat, best: nat)
    requires upTo <= |islands|
  {
    && best < upTo
    && Beyond(p, islands[best].Position(), d)
    && forall k :: 0 <= k < upTo && Beyond(p, islands[k].Position(), d) ==>
         && Distance(p, islands[best].Position(), d) <= Distance(p, islands[k].Position(), d)
         && (k < best ==> Distance(p, islands[best].Position(), d) < Distance(p, islands[k].Position(), d))
  }

  predicate NoneBeyond(islands: seq<Island>, p: Pos, d: CardinalPoint, upTo: nat)
    requires upTo <= |islands|
  {
    forall k :: 0 <= k < upTo ==> !Beyond(p, islands[k].Position(), d)
  }

  function NearestFrom(islands: seq<Island>, p: Pos, d: CardinalPoint, i: nat, best: Option<nat>): (r: Option<nat>)
    requires i <= |islands|
    requires best.Some? ==> IsNearestAmong(islands, p, d, i, best.value)
    requires best.None? ==> NoneBeyond(islands, p, d, i)
    ensures r.Some? ==> IsNearestAmong(islands, p, d, |islands|, r.value)
    ensures r.None? ==> NoneBeyond(islands, p, d, |islands|)
    decreases |islands| - i
  {
    if i == |islands| then best
    else if Beyond(p, islands[i].Position(), d)
            && (best.None? || Distance(p, islands[i].Position(), d) < Distance(p, islands[best.value].Position(), d))
    then NearestFrom(islands, p, d, i + 1, Some(i))
    else NearestFrom(islands, p, d, i + 1, best)
  }

  /** getNeighbours(island, islands).get(d) for an island at p: the closest
      island strictly beyond p in direction d (the first in list order among
      equally close ones, as the stable sort and findFirst give), or nothing.
      Bridges play no part. */
  function Neighbour(islands: seq<Island>, p: Pos, d: CardinalPoint): (r: Option<nat>)
    ensures r.Some? ==> IsNearestAmong(islands, p, d, |islands|, r.value)
    ensures r.None? ==> NoneBeyond(islands, p, d, |islands|)
  {
    NearestFrom(islands, p, d, 0, None)
  }

  function GetIslandFrom(row: int, column: int, islands: seq<Island>, i: nat): (r: Option<nat>)
    requires i <= |islands|
    ensures r.Some? ==> i <= r.value < |islands| && islands[r.value].Position() == Pos(row, column)
                        && forall k :: i <= k < r.value ==> islands[k].Position() != Pos(row, column)
    ensures r.None? ==> forall k :: i <= k < |islands| ==> islands[k].Position() != Pos(row, column)
    decreases |islands| - i
  {
    if i == |islands| then None
    else if islands[i].Position() == Pos(row, column) then Some(i)
    else GetIslandFrom(row, column, islands, i + 1)
  }

  /** getIsland: the first island at (row, column), or nothing. */
  function GetIsland(row: int, column: int, islands: seq<Island>): (r: Option<nat>)
    ensures r.Some? ==> r.value < |islands| && islands[r.value].Position() == Pos(row, column)
                        && forall k :: 0 <= k < r.value ==> islands[k].Position() != Pos(row, column)
    ensures r.None? ==> forall k :: 0 <= k < |islands| ==> islands[k].Position() != Pos(row, column)
  {
    GetIslandFrom(row, column, islands, 0)
  }

  function Min(a: int, b: int): int { if a <= b then a else b }
  function Max(a: int, b: int): int { if a <= b then b else a }

  /** isIslandInBridgeInervall: the cell p lies on the bridge's row (horizontal)
      or on its first end's column (otherwise), within the closed interval
      between the ends. */
  predicate IsIslandInBridgeInterval(p: Pos, s: Span) {
    if IsHorizontal(s) then
      p.row == s.end1.row
      && ((p.column >= s.end1.column && p.column <= s.end2.column)
          || (p.column <= s.end1.column && p.column >= s.end2.column))
    else
      p.column == s.end1.column
      && ((p.row >= s.end1.row && p.row <= s.end2.row)
          || (p.row <= s.end1.row && p.row >= s.end2.row))
  }

  /** The interval is closed: it holds the ends themselves, and it is exactly
      the cells of the line between the smaller and the larger end coordinate. */
  lemma IntervalIsClosed(p: Pos, s: Span)
    ensures IsIslandInBridgeInterval(p, s) <==>
              if IsHorizontal(s) then
                p.row == s.end1.row && Min(s.end1.column, s.end2.column) <= p.column <= Max(s.end1.column, s.end2.column)
              else
                p.column == s.end1.column && Min(s.end1.row, s.end2.row) <= p.row <= Max(s.end1.row, s.end2.row)
    ensures IsIslandInBridgeInterval(s.end1, s)
    ensures s.end1.column == s.end2.column ==> IsIslandInBridgeInterval(s.end2, s)
    ensures IsHorizontal(s) ==> IsIslandInBridgeInterval(s.end2, s)
    ensures StrictlyInside(s, p) ==> IsIslandInBridgeInterval(p, s)
  {
  }

  /** Every bridge of the list has both ends among n islands. */
  predicate AllEndsIn(bridges: seq<Bridge>, n: nat) {
    forall j :: 0 <= j < |bridges| ==> EndsIn(bridges[j], n)
  }

  /** No listed bridge crosses the span s. */
  predicate CrossesNoBridge(islands: seq<Island>, bridges: seq<Bridge>, s: Span)
    requires AllEndsIn(bridges, |islands|)
  {
    forall j :: 0 <= j < |bridges| ==> !AreCrossingBridges(SpanOf(islands, bridges[j]), s)
  }

  /** The present neighbours of island k, taken in the iteration order of the
      neighbour map (any order of the directions). */
  function PresentNeighbours(islands: seq<Island>, k: nat, order: seq<CardinalPoint>): (r: seq<nat>)
    requires k < |islands|
    ensures |r| <= |order|
    ensures forall n :: n in r <==> exists d :: d in order && Neighbour(islands, islands[k].Position(), d) == Some(n)
  {
    if order == [] then []
    else
      var rest := PresentNeighbours(islands, k, order[..|order| - 1]);
      assert forall d :: d in order <==> d in order[..|order| - 1] || d == order[|order| - 1];
      match Neighbour(islands, islands[k].Position(), order[|order| - 1])
      case None => rest
      case Some(n) => rest + [n]
  }

  /** The neighbours among ns that a new bridge from island k could reach
      without crossing a listed bridge, in the order of ns. */
  function FilterUncrossed(islands: seq<Island>, bridges: seq<Bridge>, k: nat, ns: seq<nat>): (r: seq<nat>)
    requires k < |islands| && AllEndsIn(bridges, |islands|)
    requires forall i :: 0 <= i < |ns| ==> ns[i] < |islands|
    ensures forall i :: 0 <= i < |r| ==> r[i] < |islands|
  {
    if ns == [] then []
    else
      var rest := FilterUncrossed(islands, bridges, k, ns[..|ns| - 1]);
      var n := ns[|ns| - 1];
      if CrossesNoBridge(islands, bridges, CanonicalSpan(islands[k].Position(), islands[n].Position()))
      then rest + [n] else rest
  }

  lemma {:induction false} FilterUncrossedMembers(islands: seq<Island>, bridges: seq<Bridge>, k: nat, ns: seq<nat>)
    requires k < |islands| && AllEndsIn(bridges, |islands|)
    requires forall i :: 0 <= i < |ns| ==> ns[i] < |islands|
    ensures |FilterUncrossed(islands, bridges, k, ns)| <= |ns|
    ensures forall n :: n in FilterUncrossed(islands, bridges, k, ns) <==>
              n in ns && n < |islands|
              && CrossesNoBridge(islands, bridges, CanonicalSpan(islands[k].Position(), islands[n].Position()))
  {
    if ns != [] {
      FilterUncrossedMembers(islands, bridges, k, ns[..|ns| - 1]);
      assert forall n :: n in ns <==> n in ns[..|ns| - 1] || n == ns[|ns| - 1];
    }
  }

  /** getReachibleNeighbours (its value): the geometric neighbours, in the
      neighbour map's order, to which a bridge would cross no listed bridge. */
  function ReachibleNeighbours(islands: seq<Island>, bridges: seq<Bridge>, k: nat, order: seq<CardinalPoint>)
    : (r: seq<nat>)
    requires k < |islands| && AllEndsIn(bridges, |islands|)
    ensures forall i :: 0 <= i < |r| ==> r[i] < |islands|
  {
    var ns := PresentNeighbours(islands, k, order);
    assert forall i :: 0 <= i < |ns| ==> ns[i] < |islands| by {
      forall i | 0 <= i < |ns| ensures ns[i] < |islands| {
        assert ns[i] in ns;
      }
    }
    FilterUncrossed(islands, bridges, k, ns)
  }

  /** The reachable neighbours are exactly the geometric neighbours whose
      connecting bridge would cross no listed bridge; there is at most one per
      direction, and island k is not among them. */
  lemma ReachibleNeighboursSpec(islands: seq<Island>, bridges: seq<Bridge>, k: nat, order: seq<CardinalPoint>)
    requires k < |islands| && AllEndsIn(bridges, |islands|)
    ensures var r := ReachibleNeighbours(islands, bridges, k, order);
            && |r| <= |order|
            && (forall n :: n in r <==>
                  && (exists d :: d in order && Neighbour(islands, islands[k].Position(), d) == Some(n))
                  && n < |islands|
                  && CrossesNoBridge(islands, bridges, CanonicalSpan(islands[k].Position(), islands[n].Position())))
            && (forall n :: n in r ==> n < |islands| && islands[n].Position() != islands[k].Position())
  {
    var ns := PresentNeighbours(islands, k, order);
    assert forall i :: 0 <= i < |ns| ==> ns[i] < |islands| by {
      forall i | 0 <= i < |ns| ensures ns[i] < |islands| {
        assert ns[i] in ns;
      }
    }
    FilterUncrossedMembers(islands, bridges, k, ns);
  }

  /** Filtering one more neighbour appends it exactly when its bridge crosses nothing. */
  lemma FilterUncrossedStep(islands: seq<Island>, bridges: seq<Bridge>, k: nat, ns: seq<nat>, i: nat)
    requires k < |islands| && AllEndsIn(bridges, |islands|) && i < |ns|
    requires forall j :: 0 <= j < |ns| ==> ns[j] < |islands|
    ensures var span := CanonicalSpan(islands[k].Position(), islands[ns[i]].Position());
            FilterUncrossed(islands, bridges, k, ns[..i + 1])
            == FilterUncrossed(islands, bridges, k, ns[..i]) + (if CrossesNoBridge(islands, bridges, span) then [ns[i]] else [])
  {
    assert ns[..i + 1][..i] == ns[..i];
  }

  /** The loop of getReachibleNeighbours: produces exactly ReachibleNeighbours. */
  method GetReachibleNeighbours(k: nat, islands: seq<Island>, bridges: seq<Bridge>, order: seq<CardinalPoint>)
    returns (reachible: seq<nat>)
    requires k < |islands| && AllEndsIn(bridges, |islands|)
    ensures reachible == ReachibleNeighbours(islands, bridges, k, order)
  {
    var neighbours := PresentNeighbours(islands, k, order);
    assert forall i :: 0 <= i < |neighbours| ==> neighbours[i] < |islands| by {
      forall i | 0 <= i < |neighbours| ensures neighbours[i] < |islands| {
        assert neighbours[i] in neighbours;
      }
    }
    reachible := [];
    var i := 0;
    while i < |neighbours|
      invariant 0 <= i <= |neighbours|
      invariant reachible == FilterUncrossed(islands, bridges, k, neighbours[..i])
    {
      var n := neighbours[i];
      // the inner loop over the bridges is the loop of isBridgeBuildable
      var buildable := IsBridgeBuildable(islands[k].Position(), islands[n].Position(), islands, bridges);
      FilterUncrossedStep(islands, bridges, k, neighbours, i);
      if buildable {
        reachible := reachible + [n];
      }
      i := i + 1;
    }
    assert neighbours[..i] == neighbours;
  }

  /** The direction, seen from island k, in which bridge b leaves it:
      east or west by column for a horizontal bridge, south or north by row otherwise. */
  function DirectionOfBridge(islands: seq<Island>, b: Bridge, k: nat): CardinalPoint
    requires EndsIn(b, |islands|) && k < |islands|
  {
    var other := if b.island1 == k then b.island2 else b.island1;
    if IsHorizontal(SpanOf(islands, b)) then
      if islands[other].column > islands[k].column then East else West
    else
      if islands[other].row > islands[k].row then South else North
  }

  /** Some listed bridge at island k leaves it in direction d. */
  predicate HasBridgeTowards(islands: seq<Island>, bridges: seq<Bridge>, k: nat, d: CardinalPoint)
    requires AllEndsIn(bridges, |islands|) && k < |islands|
  {
    exists j :: 0 <= j < |bridges| && bridges[j].Contains(k) && DirectionOfBridge(islands, bridges[j], k) == d
  }

  /** getBridgesOfIsland (its value): the listed bridges at island k, in list order. */
  function BridgesOfIsland(bridges: seq<Bridge>, k: nat): seq<Bridge> {
    if bridges == [] then []
    else
      var rest := BridgesOfIsland(bridges[..|bridges| - 1], k);
      if bridges[|bridges| - 1].Contains(k) then rest + [bridges[|bridges| - 1]] else rest
  }

  lemma {:induction false} BridgesOfIslandMembers(bridges: seq<Bridge>, k: nat)
    ensures forall b :: b in BridgesOfIsland(bridges, k) <==> b in bridges && b.Contains(k)
  {
    if bridges != [] {
      BridgesOfIslandMembers(bridges[..|bridges| - 1], k);
      assert forall b :: b in bridges <==> b in bridges[..|bridges| - 1] || b == bridges[|bridges| - 1];
    }
  }

  /** The loop of getBridgesOfIsland. */
  method GetBridgesOfIsland(k: nat, bridges: seq<Bridge>) returns (islandBridges: seq<Bridge>)
    ensures islandBridges == BridgesOfIsland(bridges, k)
  {
    islandBridges := [];
    var i := 0;
    while i < |bridges|
      invariant 0 <= i <= |bridges|
      invariant islandBridges == BridgesOfIsland(bridges[..i], k)
    {
      assert bridges[..i + 1][..i] == bridges[..i];
      if bridges[i].Contains(k) {
        islandBridges := islandBridges + [bridges[i]];
      }
      i := i + 1;
    }
    assert bridges[..i] == bridges;
  }

  /** The loop of getBridgeDirectionsOfIsland: a direction is in the result
      exactly when a listed bridge at island k leaves it that way. */
  method GetBridgeDirectionsOfIsland(k: nat, islands: seq<Island>, bridges: seq<Bridge>)
    returns (directions: set<CardinalPoint>)
    requires k < |islands| && AllEndsIn(bridges, |islands|)
    ensures forall d :: d in directions <==> HasBridgeTowards(islands, bridges, k, d)
  {
    var connected := GetBridgesOfIsland(k, bridges);
    BridgesOfIslandMembers(bridges, k);
    directions := {};
    var i := 0;
    while i < |connected|
      invariant 0 <= i <= |connected|
      invariant forall j :: 0 <= j < i ==> EndsIn(connected[j], |islands|)
      invariant forall d :: d in directions <==>
                  exists j :: 0 <= j < i && DirectionOfBridge(islands, connected[j], k) == d
    {
      var b := connected[i];
      assert b in connected;
      var other := if b.island1 == k then b.island2 else b.island1;
      if IsHorizontal(SpanOf(islands, b)) {
        if islands[other].column > islands[k].column {
          directions := directions + {East};
        } else {
          directions := directions + {West};
        }
      } else {
        if islands[other].row > islands[k].row {
          directions := directions + {South};
        } else {
          directions := directions + {North};
        }
      }
      assert DirectionOfBridge(islands, b, k) in directions;
      i := i + 1;
    }
    forall d ensures d in directions <==> HasBridgeTowards(islands, bridges, k, d) {
      if d in directions {
        var j :| 0 <= j < |connected| && DirectionOfBridge(islands, connected[j], k) == d;
        assert connected[j] in connected;
        var m :| 0 <= m < |bridges| && bridges[m] == connected[j];
      }
      if HasBridgeTowards(islands, bridges, k, d) {
        var m :| 0 <= m < |bridges| && bridges[m].Contains(k) && DirectionOfBridge(islands, bridges[m], k) == d;
        assert bridges[m] in bridges;
        var j :| 0 <= j < |connected| && connected[j] == bridges[m];
      }
    }
  }

  /** Island y is at the other end of a listed bridge at island x (y == x for a
      bridge from an island to itself). */
  predicate Adjacent(bridges: seq<Bridge>, x: nat, y: nat) {
    exists j :: 0 <= j < |bridges| &&
      ((bridges[j].island1 == x && bridges[j].island2 == y) || (bridges[j].island2 == x && bridges[j].island1 == y))
  }

  /** getConnectedNeighboursOfIsland (its value): the other end of every listed
      bridge at island k, in list order. */
  function ConnectedNeighbours(bridges: seq<Bridge>, k: nat): seq<nat> {
    if bridges == [] then []
    else
      var rest := ConnectedNeighbours(bridges[..|bridges| - 1], k);
      var b := bridges[|bridges| - 1];
      if b.Contains(k) then rest + [if b.island1 == k then b.island2 else b.island1] else rest
  }

  /** The connected neighbours are exactly the islands adjacent in the bridge graph. */
  lemma {:induction false} ConnectedNeighboursAreAdjacent(bridges: seq<Bridge>, k: nat)
    ensures forall y :: y in ConnectedNeighbours(bridges, k) <==> Adjacent(bridges, k, y)
  {
    if bridges != [] {
      var init := bridges[..|bridges| - 1];
      ConnectedNeighboursAreAdjacent(init, k);
      forall y ensures Adjacent(bridges, k, y) <==> Adjacent(init, k, y) || Adjacent([bridges[|bridges| - 1]], k, y) {
        if Adjacent(bridges, k, y) {
          var j :| 0 <= j < |bridges| &&
            ((bridges[j].island1 == k && bridges[j].island2 == y) || (bridges[j].island2 == k && bridges[j].island1 == y));
          if j < |init| {
            assert init[j] == bridges[j];
          } else {
            assert [bridges[|bridges| - 1]][0] == bridges[j];
          }
        }
        if Adjacent(init, k, y) {
          var j :| 0 <= j < |init| &&
            ((init[j].island1 == k && init[j].island2 == y) || (init[j].island2 == k && init[j].island1 == y));
          assert bridges[j] == init[j];
        }
        if Adjacent([bridges[|bridges| - 1]], k, y) {
          assert bridges[|bridges| - 1] == [bridges[|bridges| - 1]][0];
        }
      }
    }
  }

  /** The loop of getConnectedNeighboursOfIsland. */
  method GetConnectedNeighboursOfIsland(k: nat, bridges: seq<Bridge>) returns (connected: seq<nat>)
    ensures connected == ConnectedNeighbours(bridges, k)
  {
    connected := [];
    var i := 0;
    while i < |bridges|
      invariant 0 <= i <= |bridges|
      invariant connected == ConnectedNeighbours(bridges[..i], k)
    {
      assert bridges[..i + 1][..i] == bridges[..i];
      var bridge := bridges[i];
      if bridge.Contains(k) {
        var other := if bridge.island1 == k then bridge.island2 else bridge.island1;
        connected := connected + [other];
      }
      i := i + 1;
    }
    assert bridges[..i] == bridges;
  }

  /** getBridgeBetweenIslands (its value): the first listed bridge whose ends
      are islands a and b, in either order, or nothing. */
  function BridgeBetween(bridges: seq<Bridge>, a: nat, b: nat): (r: Option<nat>)
    ensures r.Some? ==> r.value < |bridges| && bridges[r.value].ContainsBoth(a, b)
                        && forall j :: 0 <= j < r.value ==> !bridges[j].ContainsBoth(a, b)
    ensures r.None? ==> forall j :: 0 <= j < |bridges| ==> !bridges[j].ContainsBoth(a, b)
  {
    if bridges == [] then None
    else if bridges[0].ContainsBoth(a, b) then Some(0)
    else
      match BridgeBetween(bridges[1..], a, b)
      case None => None
      case Some(j) => Some(j + 1)
  }

  /** The loop of getBridgeBetweenIslands. */
  method GetBridgeBetweenIslands(a: nat, b: nat, bridges: seq<Bridge>) returns (found: Option<nat>)
    ensures found == BridgeBetween(bridges, a, b)
  {
    found := None;
    var i := 0;
    while i < |bridges|
      invariant 0 <= i <= |bridges|
      invariant forall j :: 0 <= j < i ==> !bridges[j].ContainsBoth(a, b)
    {
      if bridges[i].ContainsBoth(a, b) {
        found := Some(i);
        break;
      }
      i := i + 1;
    }
  }

  /** The loop of isBridgeBuildable: true exactly when a bridge between cells
      p and q would cross no listed bridge; it attaches nothing to any island. */
  method IsBridgeBuildable(p: Pos, q: Pos, islands: seq<Island>, bridges: seq<Bridge>) returns (buildable: bool)
    requires AllEndsIn(bridges, |islands|)
    ensures buildable == CrossesNoBridge(islands, bridges, CanonicalSpan(p, q))
  {
    var j := 0;
    while j < |bridges|
      invariant 0 <= j <= |bridges|
      invariant forall m :: 0 <= m < j ==> !AreCrossingBridges(SpanOf(islands, bridges[m]), CanonicalSpan(p, q))
    {
      if AreCrossingBridges(SpanOf(islands, bridges[j]), CanonicalSpan(p, q)) {
        return false;
      }
      j := j + 1;
    }
    return true;
  }

  /** The number of bridges attached to island k by the listed bridges. */
  function Degree(bridges: seq<Bridge>, k: nat): nat {
    if bridges == [] then 0
    else Degree(bridges[..|bridges| - 1], k) + bridges[|bridges| - 1].Attached(k)
  }

  lemma {:induction false} DegreeOfConcat(s: seq<Bridge>, t: seq<Bridge>, k: nat)
    ensures Degree(s + t, k) == Degree(s, k) + Degree(t, k)
  {
    if t == [] {
      assert s + t == s;
    } else {
      assert (s + t)[..|s + t| - 1] == s + t[..|t| - 1];
      DegreeOfConcat(s, t[..|t| - 1], k);
    }
  }

  lemma DegreeOfSingleton(b: Bridge, k: nat)
    ensures Degree([b], k) == b.Attached(k)
  {
    assert [b][..0] == [];
  }

  /** Replacing the bridge at position i changes each degree by the difference of the two bridges. */
  lemma DegreeOfUpdate(s: seq<Bridge>, i: nat, b: Bridge, k: nat)
    requires i < |s|
    ensures Degree(s[i := b], k) == Degree(s, k) - s[i].Attached(k) + b.Attached(k)
  {
    assert s == s[..i] + [s[i]] + s[i + 1..];
    assert s[i := b] == s[..i] + [b] + s[i + 1..];
    DegreeOfConcat(s[..i] + [s[i]], s[i + 1..], k);
    DegreeOfConcat(s[..i], [s[i]], k);
    DegreeOfConcat(s[..i] + [b], s[i + 1..], k);
    DegreeOfConcat(s[..i], [b], k);
    DegreeOfSingleton(s[i], k);
    DegreeOfSingleton(b, k);
  }

  /** Dropping the bridge at position i takes its weight off both its ends. */
  lemma DegreeOfRemoval(s: seq<Bridge>, i: nat, k: nat)
    requires i < |s|
    ensures Degree(s[..i] + s[i + 1..], k) == Degree(s, k) - s[i].Attached(k)
  {
    assert s == s[..i] + [s[i]] + s[i + 1..];
    DegreeOfConcat(s[..i] + [s[i]], s[i + 1..], k);
    DegreeOfConcat(s[..i], [s[i]], k);
    DegreeOfConcat(s[..i], s[i + 1..], k);
    DegreeOfSingleton(s[i], k);
  }

  /** Every island's count of attached bridges is the number of bridges the
      listed relations attach to it. */
  predicate CountsMatchBridges(islands: seq<Island>, bridges: seq<Bridge>) {
    forall k :: 0 <= k < |islands| ==> islands[k].currentNrOfBridges == Degree(bridges, k)
  }

  /** removeBridge: a double bridge stays listed as a single bridge marked as
      modified latest; a single bridge leaves the list. Either way both ends
      lose one attached bridge. */
  function RemoveBridge(islands: seq<Island>, bridges: seq<Bridge>, i: nat): (r: (seq<Island>, seq<Bridge>))
    requires i < |bridges| && AllEndsIn(bridges, |islands|)
    ensures |r.0| == |islands| && AllEndsIn(r.1, |islands|)
    ensures forall k :: 0 <= k < |islands| ==>
              r.0[k] == islands[k].SetCurrentNrOfBridges(islands[k].currentNrOfBridges - bridges[i].Ends(k))
    ensures bridges[i].isDoubleBridge ==>
              r.1 == bridges[i := Bridge(bridges[i].island1, bridges[i].island2, false, true)]
    ensures !bridges[i].isDoubleBridge ==> r.1 == bridges[..i] + bridges[i + 1..]
  {
    var bridge := bridges[i];
    assert EndsIn(bridge, |islands|);
    var after := AddToCount(AddToCount(islands, bridge.island1, -1), bridge.island2, -1);
    if bridge.isDoubleBridge then
      (after, bridges[i := bridge.SetModifiedLatest(true).SetDoubleBridge(false)])
    else
      (after, bridges[..i] + bridges[i + 1..])
  }

  /** Removing one bridge keeps every count equal to the island's degree. */
  lemma RemoveBridgeKeepsCounts(islands: seq<Island>, bridges: seq<Bridge>, i: nat)
    requires i < |bridges| && AllEndsIn(bridges, |islands|)
    requires CountsMatchBridges(islands, bridges)
    ensures CountsMatchBridges(RemoveBridge(islands, bridges, i).0, RemoveBridge(islands, bridges, i).1)
  {
    var r := RemoveBridge(islands, bridges, i);
    forall k | 0 <= k < |islands| ensures r.0[k].currentNrOfBridges == Degree(r.1, k) {
      RemovalDegree(bridges, i, k);
    }
  }

  lemma RemovalDegree(bridges: seq<Bridge>, i: nat, k: nat)
    requires i < |bridges|
    ensures bridges[i].isDoubleBridge ==>
              Degree(bridges[i := Bridge(bridges[i].island1, bridges[i].island2, false, true)], k)
              == Degree(bridges, k) - bridges[i].Ends(k)
    ensures !bridges[i].isDoubleBridge ==>
              Degree(bridges[..i] + bridges[i + 1..], k) == Degree(bridges, k) - bridges[i].Ends(k)
  {
    if bridges[i].isDoubleBridge {
      DegreeOfUpdate(bridges, i, Bridge(bridges[i].island1, bridges[i].island2, false, true), k);
    } else {
      DegreeOfRemoval(bridges, i, k);
    }
  }

  // ----- the bridge graph and the connectivity search -----

  /** A walk in the bridge graph: consecutive islands are adjacent. */
  ghost predicate IsWalk(bridges: seq<Bridge>, w: seq<nat>) {
    |w| > 0 && forall i :: 0 <= i < |w| - 1 ==> Adjacent(bridges, w[i], w[i + 1])
  }

  /** Island t can be reached from island s over bridges. */
  ghost predicate Connected(bridges: seq<Bridge>, s: nat, t: nat) {
    exists w :: IsWalk(bridges, w) && w[0] == s && w[|w| - 1] == t
  }

  /** The islands, among n, that can be reached from island s. */
  ghost function Component(bridges: seq<Bridge>, n: nat, s: nat): set<nat> {
    set t | 0 <= t < n && Connected(bridges, s, t)
  }

  lemma ConnectedToItself(bridges: seq<Bridge>, s: nat)
    ensures Connected(bridges, s, s)
  {
    assert IsWalk(bridges, [s]);
  }

  lemma ConnectedStep(bridges: seq<Bridge>, s: nat, x: nat, y: nat)
    requires Connected(bridges, s, x) && Adjacent(bridges, x, y)
    ensures Connected(bridges, s, y)
  {
    var w :| IsWalk(bridges, w) && w[0] == s && w[|w| - 1] == x;
    var w' := w + [y];
    assert forall i :: 0 <= i < |w'| - 1 ==> Adjacent(bridges, w'[i], w'[i + 1]) by {
      forall i | 0 <= i < |w'| - 1 ensures Adjacent(bridges, w'[i], w'[i + 1]) {
        if i < |w| - 1 {
          assert w'[i] == w[i] && w'[i + 1] == w[i + 1];
        }
      }
    }
    assert IsWalk(bridges, w');
  }

  /** A set of islands that holds s and is closed under adjacency holds every
      island reachable from s. */
  lemma ClosedSetHoldsComponent(bridges: seq<Bridge>, s: nat, S: set<nat>, t: nat)
    requires s in S
    requires forall x, y :: x in S && Adjacent(bridges, x, y) ==> y in S
    requires Connected(bridges, s, t)
    ensures t in S
  {
    var w :| IsWalk(bridges, w) && w[0] == s && w[|w| - 1] == t;
    var i := 0;
    while i < |w| - 1
      invariant 0 <= i <= |w| - 1
      invariant w[i] in S
    {
      assert Adjacent(bridges, w[i], w[i + 1]);
      i := i + 1;
    }
  }

  ghost function Below(n: nat): (r: set<nat>)
    ensures forall x: nat :: x in r <==> x < n
  {
    if n == 0 then {} else Below(n - 1) + {n - 1}
  }

  /** depthFirstSearch: an explicit stack and a set of explored islands; the
      result is the number of islands in the start island's connected
      component, so at least 1. The frontier never holds an island twice. */
  method DepthFirstSearch(island: nat, bridges: seq<Bridge>, ghost n: nat) returns (count: nat)
    requires island < n && AllEndsIn(bridges, n)
    ensures count == |Component(bridges, n, island)|
    ensures count >= 1
  {
    var frontier: seq<nat> := [island];
    var explored: set<nat> := {};
    ConnectedToItself(bridges, island);
    while frontier != []
      invariant forall x :: x in frontier ==> x < n && Connected(bridges, island, x)
      invariant forall x :: x in explored ==> x < n && Connected(bridges, island, x)
      invariant forall x :: x in frontier ==> x !in explored
      invariant forall i, j :: 0 <= i < j < |frontier| ==> frontier[i] != frontier[j]
      invariant island in explored || island in frontier
      invariant forall x, y :: x in explored && Adjacent(bridges, x, y) ==> y in explored || y in frontier
      decreases Below(n) - explored
    {
      var state := frontier[|frontier| - 1];
      assert state in frontier;
      ghost var oldFrontier := frontier;
      frontier := frontier[..|frontier| - 1];
      assert forall x :: x in frontier ==> x in oldFrontier && x != state by {
        forall x | x in frontier ensures x in oldFrontier && x != state {
          var p :| 0 <= p < |frontier| && frontier[p] == x;
          assert oldFrontier[p] == x;
        }
      }
      ghost var oldExplored := explored;
      explored := explored + {state};
      assert state in Below(n);
      var neighbours := GetConnectedNeighboursOfIsland(state, bridges);
      ConnectedNeighboursAreAdjacent(bridges, state);
      var i := 0;
      while i < |neighbours|
        invariant 0 <= i <= |neighbours|
        invariant forall x :: x in frontier ==> x < n && Connected(bridges, island, x)
        invariant forall x :: x in frontier ==> x !in explored
        invariant forall p, q :: 0 <= p < q < |frontier| ==> frontier[p] != frontier[q]
        invariant island in explored || island in frontier
        invariant forall x, y :: x in oldExplored && Adjacent(bridges, x, y) ==> y in explored || y in frontier
        invariant forall j :: 0 <= j < i ==> neighbours[j] in explored || neighbours[j] in frontier
      {
        var neighbour := neighbours[i];
        assert neighbour in neighbours;
        assert Adjacent(bridges, state, neighbour);
        if neighbour !in explored && neighbour !in frontier {
          var j :| 0 <= j < |bridges| &&
            ((bridges[j].island1 == state && bridges[j].island2 == neighbour)
             || (bridges[j].island2 == state && bridges[j].island1 == neighbour));
          assert EndsIn(bridges[j], n);
          ConnectedStep(bridges, island, state, neighbour);
          frontier := frontier + [neighbour];
        }
        i := i + 1;
      }
      forall y | Adjacent(bridges, state, y) ensures y in explored || y in frontier {
        assert y in neighbours;
      }
    }
    forall t | t in Component(bridges, n, island) ensures t in explored {
      ClosedSetHoldsComponent(bridges, island, explored, t);
    }
    assert explored == Component(bridges, n, island);
    assert island in explored;
    count := |explored|;
  }
}
