/** The one-step solver of GameModel.java (solveNextBridge and
    solveNextBridge1) as transitions on a board. */
module Solver {
  import opened Wrappers
  import opened Islands
  import opened Bridges
  import opened GameModelUtils
  import opened Rules

  /** Which builds of the double-bridge rule decide whether a step succeeded:
      only the second one (as solveNextBridge1 is written), or either of them. */
  datatype DoubleRuleReport = SecondBuildOnly | EitherBuild

  /** The islands among ns that still have bridge capacity left, in the order of ns. */
  function WithCapacityLeft(islands: seq<Island>, ns: seq<nat>): (r: seq<nat>)
    requires forall i :: 0 <= i < |ns| ==> ns[i] < |islands|
    ensures |r| <= |ns|
    ensures forall i :: 0 <= i < |r| ==> r[i] < |islands| && r[i] in ns && islands[r[i]].CurrentBridgeCapacity() != 0
    ensures forall j :: 0 <= j < |ns| && islands[ns[j]].CurrentBridgeCapacity() != 0 ==> ns[j] in r
  {
    if ns == [] then []
    else
      var rest := WithCapacityLeft(islands, ns[..|ns| - 1]);
      var n := ns[|ns| - 1];
      if islands[n].CurrentBridgeCapacity() != 0 then rest + [n] else rest
  }

  /** The deadlock guard: on a board of more than two islands, never join two
      islands whose total capacity is exactly c (such a pair would be cut off). */
  predicate DeadlockGuard(nrOfIslands: int, a: Island, b: Island, c: int) {
    nrOfIslands > 2 && a.bridgeCapacity == c && b.bridgeCapacity == c
  }

  /** The rule for a capacity of 2n - 1 with n reachable neighbours: try a
      single bridge (no upgrade) to each neighbour in turn, stopping at the first success. */
  function SingleBridgeRule(s: State, nrOfIslands: int, k: nat, ns: seq<nat>, i: nat): (r: (bool, State))
    requires WellFormed(s) && k < |s.islands| && i <= |ns|
    requires forall j :: 0 <= j < |ns| ==> ns[j] < |s.islands|
    ensures WellFormed(r.1) && SamePlaces(r.1.islands, s.islands)
    decreases |ns| - i
  {
    if i == |ns| then (false, s)
    else if !DeadlockGuard(nrOfIslands, s.islands[k], s.islands[ns[i]], 1) then
      var b := BuildBridgeBetween(s, k, ns[i], true, false);
      if b.0 then (true, b.1) else SingleBridgeRule(b.1, nrOfIslands, k, ns, i + 1)
    else SingleBridgeRule(s, nrOfIslands, k, ns, i + 1)
  }

  /** The rule for a capacity of 2n with n reachable neighbours: build twice
      to each neighbour in turn (a bridge, then its upgrade), stopping when the
      step counts as a success. */
  function DoubleBridgeRule(s: State, nrOfIslands: int, k: nat, ns: seq<nat>, i: nat, report: DoubleRuleReport)
    : (r: (bool, State))
    requires WellFormed(s) && k < |s.islands| && i <= |ns|
    requires forall j :: 0 <= j < |ns| ==> ns[j] < |s.islands|
    ensures WellFormed(r.1) && SamePlaces(r.1.islands, s.islands)
    decreases |ns| - i
  {
    if i == |ns| then (false, s)
    else if !DeadlockGuard(nrOfIslands, s.islands[k], s.islands[ns[i]], 2) then
      var first := BuildBridgeBetween(s, k, ns[i], true, true);
      var second := BuildBridgeBetween(first.1, k, ns[i], true, true);
      var added := if report == SecondBuildOnly then second.0 else first.0 || second.0;
      if added then (true, second.1) else DoubleBridgeRule(second.1, nrOfIslands, k, ns, i + 1, report)
    else DoubleBridgeRule(s, nrOfIslands, k, ns, i + 1, report)
  }

  /** One unguarded step of the double-bridge rule, under either report. */
  lemma DoubleBridgeRuleStep(s: State, nrOfIslands: int, k: nat, ns: seq<nat>, i: nat, report: DoubleRuleReport)
    requires WellFormed(s) && k < |s.islands| && i < |ns|
    requires forall j :: 0 <= j < |ns| ==> ns[j] < |s.islands|
    requires !DeadlockGuard(nrOfIslands, s.islands[k], s.islands[ns[i]], 2)
    ensures var first := BuildBridgeBetween(s, k, ns[i], true, true);
            var second := BuildBridgeBetween(first.1, k, ns[i], true, true);
            var added := if report == SecondBuildOnly then second.0 else first.0 || second.0;
            DoubleBridgeRule(s, nrOfIslands, k, ns, i, report)
            == if added then (true, second.1)
               else DoubleBridgeRule(second.1, nrOfIslands, k, ns, i + 1, report)
  {
  }

  /** solveNextBridge1(islands[k]): if exactly one reachable neighbour has
      capacity left, bridge to it (unless the guard forbids it); otherwise
      apply the 2n - 1 or the 2n rule, judged by island k's total capacity. */
  function SolveNextBridge1(s: State, nrOfIslands: int, k: nat, order: seq<CardinalPoint>, report: DoubleRuleReport)
    : (r: (bool, State))
    requires WellFormed(s) && k < |s.islands|
    ensures WellFormed(r.1) && SamePlaces(r.1.islands, s.islands)
  {
    var bridgeCapacity := s.islands[k].bridgeCapacity;
    var all := ReachibleNeighbours(s.islands, s.bridges, k, order);
    var open := WithCapacityLeft(s.islands, all);
    if |open| == 1 then
      if !DeadlockGuard(nrOfIslands, s.islands[k], s.islands[open[0]], 1)
      then BuildBridgeBetween(s, k, open[0], true, true)
      else (false, s)
    else if 2 * |all| - 1 == bridgeCapacity then SingleBridgeRule(s, nrOfIslands, k, all, 0)
    else if 2 * |all| == bridgeCapacity then DoubleBridgeRule(s, nrOfIslands, k, all, 0, report)
    else (false, s)
  }

  /** solveNextBridge from island i on: each island in list order, on the
      board the previous attempts left, until one step succeeds. */
  function SolveFrom(s: State, nrOfIslands: int, order: seq<CardinalPoint>, report: DoubleRuleReport, i: nat)
    : (r: (bool, State))
    requires WellFormed(s) && i <= |s.islands|
    ensures WellFormed(r.1) && SamePlaces(r.1.islands, s.islands)
    decreases |s.islands| - i
  {
    if i == |s.islands| then (false, s)
    else
      var step := SolveNextBridge1(s, nrOfIslands, i, order, report);
      if step.0 then step else SolveFrom(step.1, nrOfIslands, order, report, i + 1)
  }

  function SolveNextBridge(s: State, nrOfIslands: int, order: seq<CardinalPoint>, report: DoubleRuleReport)
    : (r: (bool, State))
    requires WellFormed(s)
    ensures WellFormed(r.1) && SamePlaces(r.1.islands, s.islands)
  {
    SolveFrom(s, nrOfIslands, order, report, 0)
  }

  // ----- what the solver keeps -----

  /** No island lost an attached bridge between board a and board b. */
  predicate NoneLost(a: State, b: State) {
    |b.islands| == |a.islands| &&
    forall m :: 0 <= m < |a.islands| ==> b.islands[m].currentNrOfBridges >= a.islands[m].currentNrOfBridges
  }

  /** Board b is board a with at least one more bridge attached to some island. */
  predicate Gained(a: State, b: State) {
    NoneLost(a, b) && exists m :: 0 <= m < |a.islands| && b.islands[m].currentNrOfBridges > a.islands[m].currentNrOfBridges
  }

  lemma GainedAfterNoneLost(a: State, b: State, c: State)
    requires Gained(a, b) && NoneLost(b, c)
    ensures Gained(a, c)
  {
  }

  /** Everything the solver needs to hold of one build between two different islands. */
  lemma BuildStep(s: State, k: nat, t: nat, allowInsertDoubleBridge: bool)
    requires WellFormed(s) && k < |s.islands| && t < |s.islands| && k != t
    ensures StepFacts(s, BuildBridgeBetween(s, k, t, true, allowInsertDoubleBridge))
  {
    var b := BuildBridgeBetween(s, k, t, true, allowInsertDoubleBridge);
    if b.0 {
      BuildAttachesOneBridge(s, k, t, allowInsertDoubleBridge);
      assert b.1.islands[k].currentNrOfBridges > s.islands[k].currentNrOfBridges;
    }
    if Valid(s) {
      BuildKeepsValid(s, k, t, true, allowInsertDoubleBridge);
    }
    if Playable(s) {
      BuildKeepsPlayable(s, k, t, true, allowInsertDoubleBridge);
    }
  }

  /** The shared facts of a step: the board stays valid and playable, and
      nothing is taken away; for a step that reports success, a bridge was added. */
  predicate StepFacts(s: State, r: (bool, State)) {
    && NoneLost(s, r.1)
    && (r.0 ==> Gained(s, r.1))
    && (Valid(s) ==> Valid(r.1))
    && (Playable(s) ==> Playable(r.1))
  }

  lemma {:induction false} SingleBridgeRuleFacts(s: State, nrOfIslands: int, k: nat, ns: seq<nat>, i: nat)
    requires WellFormed(s) && k < |s.islands| && i <= |ns|
    requires forall j :: 0 <= j < |ns| ==> ns[j] < |s.islands| && ns[j] != k
    ensures var r := SingleBridgeRule(s, nrOfIslands, k, ns, i);
            StepFacts(s, r) && (!r.0 ==> r.1 == s)
    decreases |ns| - i
  {
    if i < |ns| {
      if !DeadlockGuard(nrOfIslands, s.islands[k], s.islands[ns[i]], 1) {
        var b := BuildBridgeBetween(s, k, ns[i], true, false);
        BuildStep(s, k, ns[i], false);
        if !b.0 {
          SingleBridgeRuleFacts(b.1, nrOfIslands, k, ns, i + 1);
        }
      } else {
        SingleBridgeRuleFacts(s, nrOfIslands, k, ns, i + 1);
      }
    }
  }

  lemma NoneLostTrans(a: State, b: State, c: State)
    requires NoneLost(a, b) && NoneLost(b, c)
    ensures NoneLost(a, c)
  {
  }

  lemma {:induction false} DoubleBridgeRuleFacts(s: State, nrOfIslands: int, k: nat, ns: seq<nat>, i: nat,
                                                 report: DoubleRuleReport)
    requires WellFormed(s) && k < |s.islands| && i <= |ns|
    requires forall j :: 0 <= j < |ns| ==> ns[j] < |s.islands| && ns[j] != k
    ensures SolveFacts(s, DoubleBridgeRule(s, nrOfIslands, k, ns, i, report), report)
    decreases |ns| - i
  {
    if i < |ns| {
      if !DeadlockGuard(nrOfIslands, s.islands[k], s.islands[ns[i]], 2) {
        var first := BuildBridgeBetween(s, k, ns[i], true, true);
        var second := BuildBridgeBetween(first.1, k, ns[i], true, true);
        BuildStep(s, k, ns[i], true);
        BuildStep(first.1, k, ns[i], true);
        var added := if report == SecondBuildOnly then second.0 else first.0 || second.0;
        TwoBuildsFacts(s, first, second, report);
        if !added {
          DoubleBridgeRuleFacts(second.1, nrOfIslands, k, ns, i + 1, report);
          SolveFactsChain(s, (added, second.1), DoubleBridgeRule(second.1, nrOfIslands, k, ns, i + 1, report), report);
        }
      } else {
        DoubleBridgeRuleFacts(s, nrOfIslands, k, ns, i + 1, report);
      }
    }
  }

  /** The two builds of the double-bridge rule, taken together, as one step
      that reports what the rule reports. */
  lemma TwoBuildsFacts(s: State, first: (bool, State), second: (bool, State), report: DoubleRuleReport)
    requires StepFacts(s, first) && StepFacts(first.1, second)
    requires !first.0 ==> first.1 == s
    requires !second.0 ==> second.1 == first.1
    ensures var added := if report == SecondBuildOnly then second.0 else first.0 || second.0;
            SolveFacts(s, (added, second.1), report)
  {
    NoneLostTrans(s, first.1, second.1);
    if first.0 {
      GainedAfterNoneLost(s, first.1, second.1);
    }
    if second.0 {
      var m :| 0 <= m < |first.1.islands| && second.1.islands[m].currentNrOfBridges > first.1.islands[m].currentNrOfBridges;
      assert second.1.islands[m].currentNrOfBridges > s.islands[m].currentNrOfBridges;
    }
  }

  lemma SolveNextBridge1Facts(s: State, nrOfIslands: int, k: nat, order: seq<CardinalPoint>, report: DoubleRuleReport)
    requires WellFormed(s) && k < |s.islands|
    ensures SolveFacts(s, SolveNextBridge1(s, nrOfIslands, k, order, report), report)
  {
    var all := ReachibleNeighbours(s.islands, s.bridges, k, order);
    ReachibleNeighboursSpec(s.islands, s.bridges, k, order);
    assert forall j :: 0 <= j < |all| ==> all[j] < |s.islands| && all[j] != k by {
      forall j | 0 <= j < |all| ensures all[j] < |s.islands| && all[j] != k {
        assert all[j] in all;
      }
    }
    var open := WithCapacityLeft(s.islands, all);
    if |open| == 1 {
      assert open[0] in all;
      if !DeadlockGuard(nrOfIslands, s.islands[k], s.islands[open[0]], 1) {
        BuildStep(s, k, open[0], true);
      }
    } else if 2 * |all| - 1 == s.islands[k].bridgeCapacity {
      SingleBridgeRuleFacts(s, nrOfIslands, k, all, 0);
    } else if 2 * |all| == s.islands[k].bridgeCapacity {
      DoubleBridgeRuleFacts(s, nrOfIslands, k, all, 0, report);
    }
  }

  /** The facts of a step, and with the either-build report a step that
      reports failure leaves the board as it was. */
  predicate SolveFacts(s: State, r: (bool, State), report: DoubleRuleReport) {
    StepFacts(s, r) && (report == EitherBuild && !r.0 ==> r.1 == s)
  }

  lemma {:induction false} SolveFromFacts(s: State, nrOfIslands: int, order: seq<CardinalPoint>,
                                         report: DoubleRuleReport, i: nat)
    requires WellFormed(s) && i <= |s.islands|
    ensures SolveFacts(s, SolveFrom(s, nrOfIslands, order, report, i), report)
    decreases |s.islands| - i
  {
    if i < |s.islands| {
      var step := SolveNextBridge1(s, nrOfIslands, i, order, report);
      SolveNextBridge1Facts(s, nrOfIslands, i, order, report);
      if !step.0 {
        SolveFromFacts(step.1, nrOfIslands, order, report, i + 1);
        SolveFactsChain(s, step, SolveFrom(step.1, nrOfIslands, order, report, i + 1), report);
      }
    }
  }

  /** A step that reported failure followed by another step has the facts of the second. */
  lemma SolveFactsChain(a: State, step: (bool, State), r: (bool, State), report: DoubleRuleReport)
    requires !step.0 && SolveFacts(a, step, report) && SolveFacts(step.1, r, report)
    ensures SolveFacts(a, r, report)
  {
    var b := step.1;
    NoneLostTrans(a, b, r.1);
    if r.0 {
      var m :| 0 <= m < |b.islands| && r.1.islands[m].currentNrOfBridges > b.islands[m].currentNrOfBridges;
      assert r.1.islands[m].currentNrOfBridges > a.islands[m].currentNrOfBridges;
    }
  }

  /** Every bridge the solver commits goes through the build rules: a valid
      board stays valid, a board on which the game's constraints hold keeps
      them, no island loses a bridge, and a step that reports success has
      added a bridge. With the double-bridge rule reporting either build, a
      step that reports failure leaves the board as it was. */
  lemma SolveNextBridgeFacts(s: State, nrOfIslands: int, order: seq<CardinalPoint>, report: DoubleRuleReport)
    requires WellFormed(s)
    ensures var r := SolveNextBridge(s, nrOfIslands, order, report);
            && NoneLost(s, r.1)
            && (r.0 ==> Gained(s, r.1))
            && (Valid(s) ==> Valid(r.1))
            && (Playable(s) ==> Playable(r.1))
            && (report == EitherBuild ==> (r.0 <==> r.1 != s))
  {
    SolveFromFacts(s, nrOfIslands, order, report, 0);
    var r := SolveNextBridge(s, nrOfIslands, order, report);
    if r.0 {
      var m :| 0 <= m < |s.islands| && r.1.islands[m].currentNrOfBridges > s.islands[m].currentNrOfBridges;
    }
  }
}
