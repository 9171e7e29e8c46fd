/** A board on which the 2n rule of solveNextBridge1, as written, adds bridges
    yet reports that it added none; and the corrected report on the same board. */
module SolverFindings {
  import opened Wrappers
  import opened Islands
  import opened Bridges
  import opened GameModelUtils
  import opened Rules
  import opened Solver

  /** One board of the family described by IsFindingBoard: island 0 at
      (0, 0) needs four bridges, island 1 at (0, 2) and island 2 at (2, 0)
      need one each, and no bridge is built yet. */
  function FindingBoard(): State {
    State([Island(0, 0, 4, 0), Island(0, 2, 1, 0), Island(2, 0, 1, 0)], [])
  }

  function FindingOrder(): seq<CardinalPoint> {
    [North, East, South, West]
  }

  /** Three islands: island 1 lies due east of island 0 and island 2 due south of it. */
  predicate LShape(a: seq<Island>) {
    && |a| == 3
    && a[1].row == a[0].row && a[0].column < a[1].column
    && a[2].column == a[0].column && a[0].row < a[2].row
  }

  /** The three islands in that shape, island 0 needing four bridges and
      the other two one each, with c0, c1 and c2 bridges attached. */
  predicate ThreeIslands(a: seq<Island>, c0: int, c1: int, c2: int) {
    && LShape(a)
    && a[0].bridgeCapacity == 4 && a[1].bridgeCapacity == 1 && a[2].bridgeCapacity == 1
    && a[0].currentNrOfBridges == c0 && a[1].currentNrOfBridges == c1 && a[2].currentNrOfBridges == c2
  }

  /** The board before the step: no bridge yet. */
  predicate IsFindingBoard(s: State) {
    ThreeIslands(s.islands, 0, 0, 0) && s.bridges == []
  }

  /** The board after the bridge from island 0 to island 1. */
  predicate IsFindingMiddle(s: State) {
    ThreeIslands(s.islands, 1, 1, 0) && |s.bridges| == 1 && s.bridges[0] == Bridge(0, 1, false, true)
  }

  /** The board after the bridges from island 0 to islands 1 and 2. */
  predicate IsFindingAfter(s: State) {
    && ThreeIslands(s.islands, 2, 1, 1) && |s.bridges| == 2
    && s.bridges[0] == Bridge(0, 1, false, false) && s.bridges[1] == Bridge(0, 2, false, true)
  }

  lemma FindingBoardsWellFormed(s: State)
    requires IsFindingBoard(s) || IsFindingMiddle(s) || IsFindingAfter(s)
    ensures WellFormed(s)
  {
    forall j | 0 <= j < |s.bridges| ensures EndsIn(s.bridges[j], |s.islands|) {
    }
  }

  lemma NeighboursOfCorner(a: seq<Island>)
    requires LShape(a)
    ensures Neighbour(a, a[0].Position(), North) == None
    ensures Neighbour(a, a[0].Position(), East) == Some(1)
    ensures Neighbour(a, a[0].Position(), South) == Some(2)
    ensures Neighbour(a, a[0].Position(), West) == None
  {
  }

  lemma NeighboursOfEnds(a: seq<Island>)
    requires LShape(a)
    ensures Neighbour(a, a[1].Position(), North) == None
    ensures Neighbour(a, a[1].Position(), East) == None
    ensures Neighbour(a, a[1].Position(), South) == None
    ensures Neighbour(a, a[1].Position(), West) == Some(0)
    ensures Neighbour(a, a[2].Position(), North) == Some(0)
    ensures Neighbour(a, a[2].Position(), East) == None
    ensures Neighbour(a, a[2].Position(), South) == None
    ensures Neighbour(a, a[2].Position(), West) == None
  {
  }

  /** The order of the directions, cut down one direction at a time. */
  lemma OrderPrefixes()
    ensures FindingOrder()[..3] == [North, East, South]
    ensures [North, East, South][..2] == [North, East]
    ensures [North, East][..1] == [North]
    ensures [North][..0] == []
  {
  }

  /** Island 0 sees island 1 to the east and island 2 to the south. */
  lemma PresentAroundCorner(a: seq<Island>)
    requires LShape(a)
    ensures PresentNeighbours(a, 0, FindingOrder()) == [1, 2]
  {
    NeighboursOfCorner(a);
    OrderPrefixes();
    assert PresentNeighbours(a, 0, [North, East]) == [1];
  }

  /** Island 1 sees only island 0, to the west. */
  lemma PresentAroundEast(a: seq<Island>)
    requires LShape(a)
    ensures PresentNeighbours(a, 1, FindingOrder()) == [0]
  {
    NeighboursOfEnds(a);
    OrderPrefixes();
    assert PresentNeighbours(a, 1, [North]) == [];
    assert PresentNeighbours(a, 1, [North, East]) == [];
    assert PresentNeighbours(a, 1, [North, East, South]) == [];
  }

  /** Island 2 sees only island 0, to the north. */
  lemma PresentAroundSouth(a: seq<Island>)
    requires LShape(a)
    ensures PresentNeighbours(a, 2, FindingOrder()) == [0]
  {
    NeighboursOfEnds(a);
    OrderPrefixes();
    assert PresentNeighbours(a, 2, [North]) == [0];
    assert PresentNeighbours(a, 2, [North, East]) == [0];
    assert PresentNeighbours(a, 2, [North, East, South]) == [0];
  }

  /** With no bridge on the board, no neighbour is filtered out. */
  lemma {:induction false} FilterWithoutBridges(a: seq<Island>, k: nat, ns: seq<nat>)
    requires k < |a| && forall i :: 0 <= i < |ns| ==> ns[i] < |a|
    ensures FilterUncrossed(a, [], k, ns) == ns
  {
    if ns != [] {
      FilterWithoutBridges(a, k, ns[..|ns| - 1]);
      assert ns[..|ns| - 1] + [ns[|ns| - 1]] == ns;
    }
  }

  lemma ReachFromCorner(s: State)
    requires IsFindingBoard(s) && WellFormed(s)
    ensures ReachibleNeighbours(s.islands, s.bridges, 0, FindingOrder()) == [1, 2]
  {
    PresentAroundCorner(s.islands);
    FilterWithoutBridges(s.islands, 0, [1, 2]);
  }

  /** Neither bridge of the final board crosses a bridge from island 0 to an end island. */
  lemma NoCrossingAtEnds(s: State)
    requires IsFindingAfter(s) && WellFormed(s)
    ensures CrossesNoBridge(s.islands, s.bridges, CanonicalSpan(s.islands[1].Position(), s.islands[0].Position()))
    ensures CrossesNoBridge(s.islands, s.bridges, CanonicalSpan(s.islands[2].Position(), s.islands[0].Position()))
  {
    var h := Span(s.islands[0].Position(), s.islands[1].Position());
    var v := Span(s.islands[0].Position(), s.islands[2].Position());
    assert CanonicalSpan(s.islands[1].Position(), s.islands[0].Position()) == h;
    assert CanonicalSpan(s.islands[2].Position(), s.islands[0].Position()) == v;
    SameOrientationNeverCrosses(h, h);
    SameOrientationNeverCrosses(v, v);
    CrossingCondition(h, v);
    forall j | 0 <= j < |s.bridges|
      ensures !AreCrossingBridges(SpanOf(s.islands, s.bridges[j]), h)
      ensures !AreCrossingBridges(SpanOf(s.islands, s.bridges[j]), v)
    {
      if j == 0 {
        assert SpanOf(s.islands, s.bridges[j]) == h;
      } else {
        assert SpanOf(s.islands, s.bridges[j]) == v;
      }
    }
  }

  /** Filtering a single neighbour keeps it exactly when its bridge would cross nothing. */
  lemma FilterOne(a: seq<Island>, b: seq<Bridge>, k: nat, n: nat)
    requires k < |a| && n < |a| && AllEndsIn(b, |a|)
    ensures FilterUncrossed(a, b, k, [n])
            == if CrossesNoBridge(a, b, CanonicalSpan(a[k].Position(), a[n].Position())) then [n] else []
  {
    assert [n][..0] == [];
  }

  lemma ReachFromEnds(s: State)
    requires IsFindingAfter(s) && WellFormed(s)
    ensures ReachibleNeighbours(s.islands, s.bridges, 1, FindingOrder()) == [0]
    ensures ReachibleNeighbours(s.islands, s.bridges, 2, FindingOrder()) == [0]
  {
    PresentAroundEast(s.islands);
    PresentAroundSouth(s.islands);
    NoCrossingAtEnds(s);
    FilterOne(s.islands, s.bridges, 1, 0);
    FilterOne(s.islands, s.bridges, 2, 0);
  }

  /** Islands k and t are unconnected, both have capacity left, a bridge
      between them would cross nothing, and k is the end nearer the origin. */
  predicate FreshBuildable(s: State, k: nat, t: nat) {
    && WellFormed(s) && k < |s.islands| && t < |s.islands| && k != t
    && BridgeBetween(s.bridges, k, t) == None
    && s.islands[k].CurrentBridgeCapacity() > 0 && s.islands[t].CurrentBridgeCapacity() > 0
    && NewBridgeCrossesNone(s.islands, s.bridges, CanonicalSpan(s.islands[k].Position(), s.islands[t].Position()))
    && Manhattan(s.islands[k].Position()) <= Manhattan(s.islands[t].Position())
  }

  /** The board with a new single bridge k-t, marked as modified latest. */
  function WithFreshBridge(s: State, k: nat, t: nat): State
    requires k < |s.islands| && t < |s.islands|
  {
    State(AddToCount(AddToCount(s.islands, k, 1), t, 1), ClearLatest(s.bridges) + [Bridge(k, t, false, true)])
  }

  /** A build between two islands that are freshly buildable adds the single bridge k-t. */
  lemma BuildFresh(s: State, k: nat, t: nat, allowInsertDoubleBridge: bool)
    requires FreshBuildable(s, k, t)
    ensures BuildBridgeBetween(s, k, t, true, allowInsertDoubleBridge) == (true, WithFreshBridge(s, k, t))
  {
    var c := ConstructBridge(s.islands, k, t, false, true);
    assert c.0 == Bridge(k, t, false, false);
    assert c.1 == AddToCount(AddToCount(s.islands, k, 1), t, 1);
  }

  /** A build over a single bridge one of whose ends has no capacity left
      changes nothing and fails. */
  lemma BuildRefused(s: State, k: nat, t: nat, j: nat)
    requires WellFormed(s) && k < |s.islands| && t < |s.islands|
    requires BridgeBetween(s.bridges, k, t) == Some(j) && !s.bridges[j].isDoubleBridge
    requires s.islands[k].CurrentBridgeCapacity() == 0 || s.islands[t].CurrentBridgeCapacity() == 0
    ensures BuildBridgeBetween(s, k, t, true, true) == (false, s)
  {
  }

  /** The board before the first build meets every condition of a fresh single bridge 0-1. */
  lemma EastIsFresh(s: State)
    requires IsFindingBoard(s) && WellFormed(s)
    ensures FreshBuildable(s, 0, 1)
  {
  }

  lemma EastShape(s: State)
    requires IsFindingBoard(s)
    ensures IsFindingMiddle(WithFreshBridge(s, 0, 1))
  {
    var a := AddToCount(AddToCount(s.islands, 0, 1), 1, 1);
    assert a[0].Position() == s.islands[0].Position() && a[0].bridgeCapacity == 4 && a[0].currentNrOfBridges == 1;
    assert a[1].Position() == s.islands[1].Position() && a[1].bridgeCapacity == 1 && a[1].currentNrOfBridges == 1;
    assert a[2] == s.islands[2];
  }

  /** The first build of the 2n rule: island 0 to island 1. */
  lemma FirstBuildToEast(s: State)
    requires IsFindingBoard(s) && WellFormed(s)
    ensures var b := BuildBridgeBetween(s, 0, 1, true, true); b.0 && IsFindingMiddle(b.1)
  {
    EastIsFresh(s);
    BuildFresh(s, 0, 1, true);
    EastShape(s);
  }

  /** The second build towards island 1 fails: island 1 is full. */
  lemma SecondBuildToEast(s: State)
    requires IsFindingMiddle(s) && WellFormed(s)
    ensures BuildBridgeBetween(s, 0, 1, true, true) == (false, s)
  {
    assert s.bridges[0].ContainsBoth(0, 1);
    BuildRefused(s, 0, 1, 0);
  }

  /** A list of one bridge is crossed exactly when that bridge is. */
  lemma CrossesTheOneBridge(islands: seq<Island>, bridges: seq<Bridge>, sp: Span)
    requires |bridges| == 1 && AllEndsIn(bridges, |islands|)
    ensures NewBridgeCrossesNone(islands, bridges, sp) == !AreCrossingBridges(sp, SpanOf(islands, bridges[0]))
  {
  }

  /** The bridge 0-1 does not cross the span from island 0 to island 2. */
  lemma SouthCrossesNothing(s: State)
    requires IsFindingMiddle(s) && WellFormed(s)
    ensures NewBridgeCrossesNone(s.islands, s.bridges, CanonicalSpan(s.islands[0].Position(), s.islands[2].Position()))
  {
    var h := Span(s.islands[0].Position(), s.islands[1].Position());
    var v := Span(s.islands[0].Position(), s.islands[2].Position());
    assert CanonicalSpan(s.islands[0].Position(), s.islands[2].Position()) == v;
    CrossingCondition(h, v);
    assert SpanOf(s.islands, s.bridges[0]) == h;
    CrossesTheOneBridge(s.islands, s.bridges, v);
  }

  /** The board after the first build meets every condition of a fresh single bridge 0-2. */
  lemma SouthIsFresh(s: State)
    requires IsFindingMiddle(s) && WellFormed(s)
    ensures FreshBuildable(s, 0, 2)
  {
    assert !s.bridges[0].ContainsBoth(0, 2) && s.bridges[1..] == [];
    SouthCrossesNothing(s);
  }

  lemma SouthShape(s: State)
    requires IsFindingMiddle(s)
    ensures IsFindingAfter(WithFreshBridge(s, 0, 2))
  {
    var a := AddToCount(AddToCount(s.islands, 0, 1), 2, 1);
    assert a[0].Position() == s.islands[0].Position() && a[0].bridgeCapacity == 4 && a[0].currentNrOfBridges == 2;
    assert a[1] == s.islands[1];
    assert a[2].Position() == s.islands[2].Position() && a[2].bridgeCapacity == 1 && a[2].currentNrOfBridges == 1;
    var bs := ClearLatest(s.bridges) + [Bridge(0, 2, false, true)];
    assert bs[0] == Bridge(0, 1, false, false);
  }

  /** The first build towards island 2: island 0 to island 2. */
  lemma FirstBuildToSouth(s: State)
    requires IsFindingMiddle(s) && WellFormed(s)
    ensures var b := BuildBridgeBetween(s, 0, 2, true, true); b.0 && IsFindingAfter(b.1)
  {
    SouthIsFresh(s);
    BuildFresh(s, 0, 2, true);
    SouthShape(s);
  }

  /** Every later build between island 0 and an end island fails: the end island is full. */
  lemma LaterBuildsRefused(s: State)
    requires IsFindingAfter(s) && WellFormed(s)
    ensures BuildBridgeBetween(s, 0, 2, true, true) == (false, s)
    ensures BuildBridgeBetween(s, 1, 0, true, true) == (false, s)
    ensures BuildBridgeBetween(s, 2, 0, true, true) == (false, s)
  {
    assert s.bridges[0].ContainsBoth(1, 0) && !s.bridges[0].ContainsBoth(0, 2) && !s.bridges[0].ContainsBoth(2, 0);
    assert s.bridges[1].ContainsBoth(0, 2) && s.bridges[1].ContainsBoth(2, 0);
    BuildRefused(s, 0, 2, 1);
    BuildRefused(s, 1, 0, 0);
    BuildRefused(s, 2, 0, 1);
  }

  // ----- the 2n rule on this board -----

  /** One neighbour of the 2n rule where the first build succeeds and the
      upgrade is refused: with the corrected report the rule stops there, as
      written it goes on to the next neighbour with the new board. */
  lemma DoubleRuleFirstBuildOnly(s: State, nrOfIslands: int, k: nat, ns: seq<nat>, i: nat, report: DoubleRuleReport, f: State)
    requires WellFormed(s) && k < |s.islands| && i < |ns|
    requires forall j :: 0 <= j < |ns| ==> ns[j] < |s.islands|
    requires !DeadlockGuard(nrOfIslands, s.islands[k], s.islands[ns[i]], 2)
    requires BuildBridgeBetween(s, k, ns[i], true, true) == (true, f)
    requires WellFormed(f) && |f.islands| == |s.islands|
    requires BuildBridgeBetween(f, k, ns[i], true, true) == (false, f)
    ensures DoubleBridgeRule(s, nrOfIslands, k, ns, i, report)
            == if report == EitherBuild then (true, f) else DoubleBridgeRule(f, nrOfIslands, k, ns, i + 1, report)
  {
  }

  /** As written, from the neighbour 2 on the rule builds 0-2, fails to
      upgrade it and reports nothing. */
  lemma DoubleRuleAtSouth(m: State, ns: seq<nat>)
    requires IsFindingMiddle(m) && WellFormed(m) && |ns| == 2 && ns[0] == 1 && ns[1] == 2
    ensures var r := DoubleBridgeRule(m, 3, 0, ns, 1, SecondBuildOnly); !r.0 && IsFindingAfter(r.1)
  {
    FirstBuildToSouth(m);
    var f := BuildBridgeBetween(m, 0, 2, true, true).1;
    FindingBoardsWellFormed(f);
    LaterBuildsRefused(f);
    DoubleRuleFirstBuildOnly(m, 3, 0, ns, 1, SecondBuildOnly, f);
    assert DoubleBridgeRule(f, 3, 0, ns, 2, SecondBuildOnly) == (false, f);
  }

  /** As written, the rule builds 0-1, fails to upgrade it, goes on to island 2
      and reports failure. */
  lemma DoubleRuleAtCorner(s: State, ns: seq<nat>)
    requires IsFindingBoard(s) && WellFormed(s) && |ns| == 2 && ns[0] == 1 && ns[1] == 2
    ensures var r := DoubleBridgeRule(s, 3, 0, ns, 0, SecondBuildOnly); !r.0 && IsFindingAfter(r.1)
  {
    FirstBuildToEast(s);
    var m := BuildBridgeBetween(s, 0, 1, true, true).1;
    FindingBoardsWellFormed(m);
    SecondBuildToEast(m);
    DoubleRuleFirstBuildOnly(s, 3, 0, ns, 0, SecondBuildOnly, m);
    DoubleRuleAtSouth(m, ns);
  }

  /** With the corrected report, the rule stops after building 0-1 and reports success. */
  lemma CorrectedDoubleRuleAtCorner(s: State, ns: seq<nat>)
    requires IsFindingBoard(s) && WellFormed(s) && |ns| == 2 && ns[0] == 1 && ns[1] == 2
    ensures var r := DoubleBridgeRule(s, 3, 0, ns, 0, EitherBuild); r.0 && IsFindingMiddle(r.1)
  {
    FirstBuildToEast(s);
    var m := BuildBridgeBetween(s, 0, 1, true, true).1;
    FindingBoardsWellFormed(m);
    SecondBuildToEast(m);
    DoubleRuleFirstBuildOnly(s, 3, 0, ns, 0, EitherBuild, m);
  }

  // ----- one solver step per island -----

  lemma CapacityLeftAtCorner(s: State)
    requires IsFindingBoard(s)
    ensures WithCapacityLeft(s.islands, [1, 2]) == [1, 2]
  {
    assert [1, 2][..1] == [1] && [1][..0] == [];
  }

  /** When more than one reachable neighbour is open and the total capacity
      is twice their number, one step is the 2n rule. */
  lemma StepIsDoubleRule(s: State, nrOfIslands: int, k: nat, order: seq<CardinalPoint>, report: DoubleRuleReport)
    requires WellFormed(s) && k < |s.islands|
    requires var all := ReachibleNeighbours(s.islands, s.bridges, k, order);
             |WithCapacityLeft(s.islands, all)| != 1 && 2 * |all| == s.islands[k].bridgeCapacity
    ensures SolveNextBridge1(s, nrOfIslands, k, order, report)
            == DoubleBridgeRule(s, nrOfIslands, k, ReachibleNeighbours(s.islands, s.bridges, k, order), 0, report)
  {
  }

  /** When exactly one reachable neighbour is open and the guard allows it,
      one step is a build towards it. */
  lemma StepIsBuildToOnlyOpen(s: State, nrOfIslands: int, k: nat, order: seq<CardinalPoint>, report: DoubleRuleReport)
    requires WellFormed(s) && k < |s.islands|
    requires var open := WithCapacityLeft(s.islands, ReachibleNeighbours(s.islands, s.bridges, k, order));
             |open| == 1 && !DeadlockGuard(nrOfIslands, s.islands[k], s.islands[open[0]], 1)
    ensures var open := WithCapacityLeft(s.islands, ReachibleNeighbours(s.islands, s.bridges, k, order));
            SolveNextBridge1(s, nrOfIslands, k, order, report) == BuildBridgeBetween(s, k, open[0], true, true)
  {
  }

  /** Island 0: two open neighbours and a capacity of 4 = 2 * 2, so the 2n rule
      applies to the reachable neighbours 1 and 2. */
  lemma StepAtCorner(s: State, order: seq<CardinalPoint>, report: DoubleRuleReport)
    requires IsFindingBoard(s) && WellFormed(s) && order == FindingOrder()
    ensures var all := ReachibleNeighbours(s.islands, s.bridges, 0, order);
            all == [1, 2] && SolveNextBridge1(s, 3, 0, order, report) == DoubleBridgeRule(s, 3, 0, all, 0, report)
  {
    ReachFromCorner(s);
    CapacityLeftAtCorner(s);
    StepIsDoubleRule(s, 3, 0, order, report);
  }

  lemma CapacityLeftAtEnds(s: State)
    requires IsFindingAfter(s)
    ensures WithCapacityLeft(s.islands, [0]) == [0]
  {
    assert [0][..0] == [];
  }

  /** Islands 1 and 2: their one open neighbour is island 0, and the upgrade towards it fails. */
  lemma StepsAtEnds(s: State, order: seq<CardinalPoint>, report: DoubleRuleReport)
    requires IsFindingAfter(s) && WellFormed(s) && order == FindingOrder()
    ensures SolveNextBridge1(s, 3, 1, order, report) == (false, s)
    ensures SolveNextBridge1(s, 3, 2, order, report) == (false, s)
  {
    ReachFromEnds(s);
    CapacityLeftAtEnds(s);
    LaterBuildsRefused(s);
    StepIsBuildToOnlyOpen(s, 3, 1, order, report);
    StepIsBuildToOnlyOpen(s, 3, 2, order, report);
  }

  /** solveNextBridge moves on from island i with the board a failed step left. */
  lemma SolveFromSkips(s: State, t: State, nrOfIslands: int, order: seq<CardinalPoint>, report: DoubleRuleReport, i: nat)
    requires WellFormed(s) && i < |s.islands|
    requires SolveNextBridge1(s, nrOfIslands, i, order, report) == (false, t)
    ensures WellFormed(t) && |t.islands| == |s.islands|
    ensures SolveFrom(s, nrOfIslands, order, report, i) == SolveFrom(t, nrOfIslands, order, report, i + 1)
  {
  }

  /** solveNextBridge stops at the first island whose step succeeds. */
  lemma SolveFromStops(s: State, nrOfIslands: int, order: seq<CardinalPoint>, report: DoubleRuleReport, i: nat)
    requires WellFormed(s) && i < |s.islands| && SolveNextBridge1(s, nrOfIslands, i, order, report).0
    ensures SolveFrom(s, nrOfIslands, order, report, i) == SolveNextBridge1(s, nrOfIslands, i, order, report)
  {
  }

  /** The two end islands leave the final board as it is. */
  lemma SolveFromEnds(f: State, order: seq<CardinalPoint>, report: DoubleRuleReport)
    requires IsFindingAfter(f) && WellFormed(f) && order == FindingOrder()
    ensures SolveFrom(f, 3, order, report, 1) == (false, f)
  {
    StepsAtEnds(f, order, report);
    SolveFromSkips(f, f, 3, order, report, 1);
    SolveFromSkips(f, f, 3, order, report, 2);
  }

  // ----- the finding -----

  lemma GainedOverBoard(s: State, t: State)
    requires IsFindingBoard(s) && (IsFindingMiddle(t) || IsFindingAfter(t))
    ensures Gained(s, t)
  {
    assert t.islands[0].currentNrOfBridges > s.islands[0].currentNrOfBridges;
  }

  lemma FindingBoardIsIt()
    ensures IsFindingBoard(FindingBoard())
  {
  }

  /** solveNextBridge as written: on this board it attaches the bridges 0-1 and
      0-2, two more than before, and still reports that it added no bridge. */
  lemma RuleCMisreports(s: State, order: seq<CardinalPoint>)
    requires IsFindingBoard(s) && order == FindingOrder()
    ensures var r := SolveNextBridge(s, 3, order, SecondBuildOnly);
            && !r.0 && IsFindingAfter(r.1) && r.1 != s && Gained(s, r.1)
  {
    FindingBoardsWellFormed(s);
    StepAtCorner(s, order, SecondBuildOnly);
    DoubleRuleAtCorner(s, ReachibleNeighbours(s.islands, s.bridges, 0, order));
    var f := SolveNextBridge1(s, 3, 0, order, SecondBuildOnly).1;
    FindingBoardsWellFormed(f);
    SolveFromSkips(s, f, 3, order, SecondBuildOnly, 0);
    SolveFromEnds(f, order, SecondBuildOnly);
    GainedOverBoard(s, f);
  }

  /** With the corrected report, the same step reports the bridge it built. */
  lemma RuleCCorrected(s: State, order: seq<CardinalPoint>)
    requires IsFindingBoard(s) && order == FindingOrder()
    ensures var r := SolveNextBridge(s, 3, order, EitherBuild);
            && r.0 && IsFindingMiddle(r.1) && Gained(s, r.1)
  {
    FindingBoardsWellFormed(s);
    StepAtCorner(s, order, EitherBuild);
    CorrectedDoubleRuleAtCorner(s, ReachibleNeighbours(s.islands, s.bridges, 0, order));
    SolveFromStops(s, 3, order, EitherBuild, 0);
    GainedOverBoard(s, SolveNextBridge1(s, 3, 0, order, EitherBuild).1);
  }
}
