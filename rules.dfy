/** The rules of the game as transitions on a board's islands and bridges
    (the build, remove and restart logic of GameModel.java), the invariants a
    board keeps, and the solved test. */
module Rules {
  import opened Wrappers
  import opened Islands
  import opened Bridges
  import opened GameModelUtils

  /** A board: its islands and the bridges between them. */
  datatype State = State(islands: seq<Island>, bridges: seq<Bridge>)

  predicate WellFormed(s: State) {
    AllEndsIn(s.bridges, |s.islands|)
  }

  /** The two island lists agree on everything but the counts of attached bridges. */
  predicate SamePlaces(a: seq<Island>, b: seq<Island>) {
    |a| == |b| &&
    forall k :: 0 <= k < |a| ==> a[k].Position() == b[k].Position() && a[k].bridgeCapacity == b[k].bridgeCapacity
  }

  /** Every count equals the number of bridges the listed relations attach. */
  predicate CountsMatch(s: State) {
    CountsMatchBridges(s.islands, s.bridges)
  }

  /** Every bridge is stored with its end nearer the origin first (as the Bridge constructor orders them). */
  predicate CanonicalOrder(s: State)
    requires WellFormed(s)
  {
    forall j :: 0 <= j < |s.bridges| ==>
      Manhattan(s.islands[s.bridges[j].island1].Position()) <= Manhattan(s.islands[s.bridges[j].island2].Position())
  }

  /** At most one bridge is marked as modified latest. */
  predicate AtMostOneLatest(bridges: seq<Bridge>) {
    forall i, j :: 0 <= i < j < |bridges| ==> !(bridges[i].modifiedLatest && bridges[j].modifiedLatest)
  }

  /** Exactly the bridge at position j is marked as modified latest. */
  predicate OnlyLatest(bridges: seq<Bridge>, j: nat) {
    forall i :: 0 <= i < |bridges| ==> (bridges[i].modifiedLatest <==> i == j)
  }

  /** No two listed bridges cross. */
  predicate NoCrossing(s: State)
    requires WellFormed(s)
  {
    forall i, j :: 0 <= i < |s.bridges| && 0 <= j < |s.bridges| ==>
      !AreCrossingBridges(SpanOf(s.islands, s.bridges[i]), SpanOf(s.islands, s.bridges[j]))
  }

  /** No island has more bridges attached than its capacity allows. */
  predicate WithinCapacity(s: State) {
    forall k :: 0 <= k < |s.islands| ==> s.islands[k].currentNrOfBridges <= s.islands[k].bridgeCapacity
  }

  /** What every board the model builds satisfies. */
  predicate Valid(s: State) {
    WellFormed(s) && CountsMatch(s) && CanonicalOrder(s) && AtMostOneLatest(s.bridges)
  }

  /** A valid board on which, in addition, the game's constraints hold. */
  predicate Playable(s: State) {
    Valid(s) && NoCrossing(s) && WithinCapacity(s)
  }

  /** The bridges with every modified-latest mark cleared. */
  function ClearLatest(bridges: seq<Bridge>): (r: seq<Bridge>)
    ensures |r| == |bridges|
    ensures forall j :: 0 <= j < |r| ==> r[j] == bridges[j].SetModifiedLatest(false)
  {
    if bridges == [] then []
    else ClearLatest(bridges[..|bridges| - 1]) + [bridges[|bridges| - 1].SetModifiedLatest(false)]
  }

  /** Two bridge lists that differ at most in their modified-latest marks. */
  predicate SameRelations(a: seq<Bridge>, b: seq<Bridge>) {
    |a| == |b| &&
    forall j :: 0 <= j < |a| ==>
      a[j].island1 == b[j].island1 && a[j].island2 == b[j].island2 && a[j].isDoubleBridge == b[j].isDoubleBridge
  }

  lemma {:induction false} DegreeIgnoresLatest(a: seq<Bridge>, b: seq<Bridge>, k: nat)
    requires SameRelations(a, b)
    ensures Degree(a, k) == Degree(b, k)
  {
    if a != [] {
      DegreeIgnoresLatest(a[..|a| - 1], b[..|b| - 1], k);
    }
  }

  lemma DegreeOfAppend(s: seq<Bridge>, b: Bridge, k: nat)
    ensures Degree(s + [b], k) == Degree(s, k) + b.Attached(k)
  {
    assert (s + [b])[..|s + [b]| - 1] == s;
  }

  /** No listed bridge crosses the span of a bridge about to be built
      (the check as buildBridgeBetweenIslands makes it, the new bridge first). */
  predicate NewBridgeCrossesNone(islands: seq<Island>, bridges: seq<Bridge>, s: Span)
    requires AllEndsIn(bridges, |islands|)
  {
    forall j :: 0 <= j < |bridges| ==> !AreCrossingBridges(s, SpanOf(islands, bridges[j]))
  }

  /** Both orders of the crossing test agree. */
  lemma NewBridgeCrossesNoneIsCrossesNoBridge(islands: seq<Island>, bridges: seq<Bridge>, s: Span)
    requires AllEndsIn(bridges, |islands|)
    ensures NewBridgeCrossesNone(islands, bridges, s) == CrossesNoBridge(islands, bridges, s)
  {
    forall j | 0 <= j < |bridges| {
      CrossingIsSymmetric(s, SpanOf(islands, bridges[j]));
    }
  }

  /** A new single bridge between islands k and t, marked as modified latest,
      every other mark cleared, one more bridge attached to each end. */
  function AddSingleBridge(s: State, k: nat, t: nat): (r: State)
    requires WellFormed(s) && k < |s.islands| && t < |s.islands|
    ensures WellFormed(r) && SamePlaces(r.islands, s.islands)
    ensures |r.bridges| == |s.bridges| + 1
    ensures r.bridges[..|s.bridges|] == ClearLatest(s.bridges)
    ensures r.bridges[|s.bridges|] == OrderedBridge(s.islands, k, t, false).SetModifiedLatest(true)
    ensures forall m :: 0 <= m < |s.islands| ==>
              r.islands[m].currentNrOfBridges
              == s.islands[m].currentNrOfBridges + OrderedBridge(s.islands, k, t, false).Ends(m)
  {
    var c := ConstructBridge(s.islands, k, t, false, true);
    var r := State(c.1, ClearLatest(s.bridges) + [c.0.SetModifiedLatest(true)]);
    assert r.bridges[..|s.bridges|] == ClearLatest(s.bridges);
    r
  }

  /** The single bridge at position j becomes a double bridge marked as
      modified latest, every other mark cleared, one more bridge attached to each end. */
  function UpgradeBridge(s: State, j: nat): (r: State)
    requires WellFormed(s) && j < |s.bridges| && !s.bridges[j].isDoubleBridge
    ensures WellFormed(r) && SamePlaces(r.islands, s.islands)
    ensures r.bridges == ClearLatest(s.bridges)[j := Bridge(s.bridges[j].island1, s.bridges[j].island2, true, true)]
    ensures forall m :: 0 <= m < |s.islands| ==>
              r.islands[m].currentNrOfBridges == s.islands[m].currentNrOfBridges + s.bridges[j].Ends(m)
  {
    var b := s.bridges[j];
    assert EndsIn(b, |s.islands|);
    var cleared := ClearLatest(s.bridges);
    State(AddToCount(AddToCount(s.islands, b.island1, 1), b.island2, 1),
          cleared[j := cleared[j].SetDoubleBridge(true).SetModifiedLatest(true)])
  }

  /** buildBridgeBetweenIslands(islands[k], islands[t], changeGameState, allowInsertDoubleBridge):
      whether a bridge can be added between the two islands, and the board
      afterwards (unchanged unless changeGameState holds and a bridge is added). */
  function BuildBridgeBetween(s: State, k: nat, t: nat, changeGameState: bool, allowInsertDoubleBridge: bool)
    : (r: (bool, State))
    requires WellFormed(s) && k < |s.islands| && t < |s.islands|
    ensures WellFormed(r.1) && SamePlaces(r.1.islands, s.islands)
    ensures (!r.0 || !changeGameState) ==> r.1 == s
  {
    match BridgeBetween(s.bridges, k, t)
    case None =>
      if s.islands[k].CurrentBridgeCapacity() > 0 && s.islands[t].CurrentBridgeCapacity() > 0 then
        if NewBridgeCrossesNone(s.islands, s.bridges, CanonicalSpan(s.islands[k].Position(), s.islands[t].Position()))
        then (true, if changeGameState then AddSingleBridge(s, k, t) else s)
        else (false, s)
      else (false, s)
    case Some(j) =>
      if s.bridges[j].isDoubleBridge then (false, s)
      else if allowInsertDoubleBridge && s.islands[k].CurrentBridgeCapacity() > 0
              && s.islands[t].CurrentBridgeCapacity() > 0
      then (true, if changeGameState then UpgradeBridge(s, j) else s)
      else (false, s)
  }

  /** removeBridgeBetweenIslands(islands[k], islands[t], changeGameState): whether
      a bridge lies between the two islands, and the board afterwards (every
      mark cleared, then that bridge removed, when changeGameState holds). */
  function RemoveBridgeBetween(s: State, k: nat, t: nat, changeGameState: bool): (r: (bool, State))
    requires WellFormed(s)
    ensures WellFormed(r.1) && SamePlaces(r.1.islands, s.islands)
    ensures (!r.0 || !changeGameState) ==> r.1 == s
  {
    match BridgeBetween(s.bridges, k, t)
    case None => (false, s)
    case Some(j) =>
      if changeGameState then
        var cleared := ClearLatest(s.bridges);
        assert AllEndsIn(cleared, |s.islands|) by {
          forall m | 0 <= m < |cleared| ensures EndsIn(cleared[m], |s.islands|) {
            assert EndsIn(s.bridges[m], |s.islands|);
          }
        }
        var after := RemoveBridge(s.islands, cleared, j);
        (true, State(after.0, after.1))
      else (true, s)
  }

  /** buildOrRemoveBridge(request, changeGameState): the first island at the
      requested cell, its neighbour in the requested direction, then a removal
      or a build (double bridges allowed) between the two. */
  function BuildOrRemoveBridge(s: State, row: int, column: int, direction: CardinalPoint, remove: bool,
                               changeGameState: bool): (r: (bool, State))
    requires WellFormed(s)
    ensures WellFormed(r.1) && SamePlaces(r.1.islands, s.islands)
    ensures (!r.0 || !changeGameState) ==> r.1 == s
  {
    match GetIsland(row, column, s.islands)
    case None => (false, s)
    case Some(k) =>
      match Neighbour(s.islands, s.islands[k].Position(), direction)
      case None => (false, s)
      case Some(t) =>
        if remove then RemoveBridgeBetween(s, k, t, changeGameState)
        else BuildBridgeBetween(s, k, t, changeGameState, true)
  }

  /** The islands with no bridge attached to any of them. */
  function ResetCounts(islands: seq<Island>): (r: seq<Island>)
    ensures SamePlaces(r, islands)
    ensures forall k :: 0 <= k < |r| ==> r[k].currentNrOfBridges == 0
  {
    if islands == [] then []
    else ResetCounts(islands[..|islands| - 1]) + [islands[|islands| - 1].SetCurrentNrOfBridges(0)]
  }

  /** restartGame: no bridges, and no island has a bridge attached. */
  function Restart(s: State): State {
    State(ResetCounts(s.islands), [])
  }

  // ----- what the transitions keep -----

  lemma ClearLatestKeepsRelations(bridges: seq<Bridge>)
    ensures SameRelations(ClearLatest(bridges), bridges)
  {
  }

  /** A board whose islands keep their places and whose bridges keep their
      ends keeps the canonical order and the absence of crossings. */
  lemma TransferSameEnds(s: State, r: State)
    requires WellFormed(s) && SamePlaces(r.islands, s.islands) && |r.bridges| == |s.bridges|
    requires forall i :: 0 <= i < |r.bridges| ==>
               r.bridges[i].island1 == s.bridges[i].island1 && r.bridges[i].island2 == s.bridges[i].island2
    ensures WellFormed(r)
    ensures forall i :: 0 <= i < |r.bridges| ==> SpanOf(r.islands, r.bridges[i]) == SpanOf(s.islands, s.bridges[i])
    ensures CanonicalOrder(s) ==> CanonicalOrder(r)
    ensures NoCrossing(s) ==> NoCrossing(r)
  {
    assert WellFormed(r) by {
      forall i | 0 <= i < |r.bridges| ensures EndsIn(r.bridges[i], |r.islands|) {
        assert EndsIn(s.bridges[i], |s.islands|);
      }
    }
    forall i | 0 <= i < |r.bridges| ensures SpanOf(r.islands, r.bridges[i]) == SpanOf(s.islands, s.bridges[i]) {
      assert EndsIn(s.bridges[i], |s.islands|);
    }
  }

  /** Deleting the bridge at position j keeps the canonical order and the absence of crossings. */
  lemma TransferDelete(s: State, islands: seq<Island>, j: nat)
    requires WellFormed(s) && SamePlaces(islands, s.islands) && j < |s.bridges|
    ensures var r := State(islands, s.bridges[..j] + s.bridges[j + 1..]);
            && WellFormed(r)
            && (CanonicalOrder(s) ==> CanonicalOrder(r))
            && (NoCrossing(s) ==> NoCrossing(r))
  {
    var r := State(islands, s.bridges[..j] + s.bridges[j + 1..]);
    assert forall i :: 0 <= i < |r.bridges| ==> r.bridges[i] == s.bridges[if i < j then i else i + 1];
    assert WellFormed(r) by {
      forall i | 0 <= i < |r.bridges| ensures EndsIn(r.bridges[i], |r.islands|) {
        assert EndsIn(s.bridges[if i < j then i else i + 1], |s.islands|);
      }
    }
    forall i | 0 <= i < |r.bridges|
      ensures SpanOf(r.islands, r.bridges[i]) == SpanOf(s.islands, s.bridges[if i < j then i else i + 1])
    {
      assert EndsIn(s.bridges[if i < j then i else i + 1], |s.islands|);
    }
    if NoCrossing(s) {
      forall a, b | 0 <= a < |r.bridges| && 0 <= b < |r.bridges|
        ensures !AreCrossingBridges(SpanOf(r.islands, r.bridges[a]), SpanOf(r.islands, r.bridges[b]))
      {
        var a', b' := if a < j then a else a + 1, if b < j then b else b + 1;
        assert !AreCrossingBridges(SpanOf(s.islands, s.bridges[a']), SpanOf(s.islands, s.bridges[b']));
      }
    }
  }

  lemma AddSingleBridgeKeepsCounts(s: State, k: nat, t: nat)
    requires WellFormed(s) && CountsMatch(s) && k < |s.islands| && t < |s.islands|
    ensures CountsMatch(AddSingleBridge(s, k, t))
  {
    var r := AddSingleBridge(s, k, t);
    var nb := OrderedBridge(s.islands, k, t, false);
    var cleared := ClearLatest(s.bridges);
    assert r.bridges == cleared + [nb.SetModifiedLatest(true)] by {
      assert r.bridges == r.bridges[..|s.bridges|] + [r.bridges[|s.bridges|]];
    }
    forall m | 0 <= m < |r.islands| ensures r.islands[m].currentNrOfBridges == Degree(r.bridges, m) {
      DegreeOfAppend(cleared, nb.SetModifiedLatest(true), m);
      ClearLatestKeepsRelations(s.bridges);
      DegreeIgnoresLatest(cleared, s.bridges, m);
      assert nb.SetModifiedLatest(true).Attached(m) == nb.Ends(m);
    }
  }

  lemma AddSingleBridgeKeepsValid(s: State, k: nat, t: nat)
    requires Valid(s) && k < |s.islands| && t < |s.islands|
    ensures var r := AddSingleBridge(s, k, t);
            Valid(r) && OnlyLatest(r.bridges, |s.bridges|)
  {
    var r := AddSingleBridge(s, k, t);
    AddSingleBridgeKeepsCounts(s, k, t);
    var nb := OrderedBridge(s.islands, k, t, false);
    var n := |s.bridges|;
    forall j | 0 <= j < |r.bridges|
      ensures Manhattan(r.islands[r.bridges[j].island1].Position()) <= Manhattan(r.islands[r.bridges[j].island2].Position())
    {
      if j < n {
        assert r.bridges[j] == r.bridges[..n][j];
        assert EndsIn(s.bridges[j], |s.islands|);
      } else {
        assert SpanOf(s.islands, nb) == CanonicalSpan(s.islands[k].Position(), s.islands[t].Position());
      }
    }
    forall j | 0 <= j < n ensures !r.bridges[j].modifiedLatest {
      assert r.bridges[j] == r.bridges[..n][j];
    }
  }

  lemma UpgradeBridgeKeepsCounts(s: State, j: nat)
    requires WellFormed(s) && CountsMatch(s) && j < |s.bridges| && !s.bridges[j].isDoubleBridge
    ensures CountsMatch(UpgradeBridge(s, j))
  {
    var r := UpgradeBridge(s, j);
    var cleared := ClearLatest(s.bridges);
    var up := Bridge(s.bridges[j].island1, s.bridges[j].island2, true, true);
    forall m | 0 <= m < |r.islands| ensures r.islands[m].currentNrOfBridges == Degree(r.bridges, m) {
      DegreeOfUpdate(cleared, j, up, m);
      ClearLatestKeepsRelations(s.bridges);
      DegreeIgnoresLatest(cleared, s.bridges, m);
    }
  }

  lemma UpgradeBridgeKeepsValid(s: State, j: nat)
    requires Valid(s) && j < |s.bridges| && !s.bridges[j].isDoubleBridge
    ensures var r := UpgradeBridge(s, j);
            Valid(r) && OnlyLatest(r.bridges, j) && (NoCrossing(s) ==> NoCrossing(r))
  {
    var r := UpgradeBridge(s, j);
    UpgradeBridgeKeepsCounts(s, j);
    TransferSameEnds(s, r);
  }

  /** A build keeps a valid board valid; after a build that changes the
      board, exactly the added or upgraded bridge is marked as modified latest. */
  lemma BuildKeepsValid(s: State, k: nat, t: nat, changeGameState: bool, allowInsertDoubleBridge: bool)
    requires Valid(s) && k < |s.islands| && t < |s.islands|
    ensures var r := BuildBridgeBetween(s, k, t, changeGameState, allowInsertDoubleBridge);
            && Valid(r.1)
            && (r.0 && changeGameState ==> exists j :: 0 <= j < |r.1.bridges| && OnlyLatest(r.1.bridges, j))
  {
    match BridgeBetween(s.bridges, k, t)
    case None =>
      AddSingleBridgeKeepsValid(s, k, t);
    case Some(j) =>
      if !s.bridges[j].isDoubleBridge {
        UpgradeBridgeKeepsValid(s, j);
      }
  }

  /** A build that changes the board attaches exactly one more bridge to each
      of the two (different) islands and to no other island, and takes no
      bridge away: every relation stays listed, and at most one new one is added. */
  lemma BuildAttachesOneBridge(s: State, k: nat, t: nat, allowInsertDoubleBridge: bool)
    requires WellFormed(s) && k < |s.islands| && t < |s.islands| && k != t
    requires BuildBridgeBetween(s, k, t, true, allowInsertDoubleBridge).0
    ensures var r := BuildBridgeBetween(s, k, t, true, allowInsertDoubleBridge).1;
            && (forall m :: 0 <= m < |s.islands| ==>
                  r.islands[m].currentNrOfBridges
                  == s.islands[m].currentNrOfBridges + (if m == k || m == t then 1 else 0))
            && |s.bridges| <= |r.bridges| <= |s.bridges| + 1
            && (forall j :: 0 <= j < |s.bridges| ==>
                  r.bridges[j].island1 == s.bridges[j].island1 && r.bridges[j].island2 == s.bridges[j].island2
                  && (s.bridges[j].isDoubleBridge ==> r.bridges[j].isDoubleBridge))
            && r.islands[k].currentNrOfBridges <= s.islands[k].bridgeCapacity
            && r.islands[t].currentNrOfBridges <= s.islands[t].bridgeCapacity
  {
    match BridgeBetween(s.bridges, k, t)
    case None =>
      var r := AddSingleBridge(s, k, t);
      forall j | 0 <= j < |s.bridges| ensures r.bridges[j] == s.bridges[j].SetModifiedLatest(false) {
        assert r.bridges[j] == r.bridges[..|s.bridges|][j];
      }
    case Some(j) =>
  }

  lemma NewBridgeNoCrossing(s: State, k: nat, t: nat)
    requires WellFormed(s) && NoCrossing(s) && k < |s.islands| && t < |s.islands|
    requires NewBridgeCrossesNone(s.islands, s.bridges, CanonicalSpan(s.islands[k].Position(), s.islands[t].Position()))
    ensures NoCrossing(AddSingleBridge(s, k, t))
  {
    var r := AddSingleBridge(s, k, t);
    var n := |s.bridges|;
    var newSpan := CanonicalSpan(s.islands[k].Position(), s.islands[t].Position());
    assert SpanOf(r.islands, r.bridges[n]) == newSpan by {
      assert SpanOf(s.islands, OrderedBridge(s.islands, k, t, false)) == newSpan;
    }
    forall a | 0 <= a < n ensures SpanOf(r.islands, r.bridges[a]) == SpanOf(s.islands, s.bridges[a]) {
      assert r.bridges[a] == r.bridges[..n][a];
      assert EndsIn(s.bridges[a], |s.islands|);
    }
    forall a, b | 0 <= a < |r.bridges| && 0 <= b < |r.bridges|
      ensures !AreCrossingBridges(SpanOf(r.islands, r.bridges[a]), SpanOf(r.islands, r.bridges[b]))
    {
      if a < n && b == n {
        CrossingIsSymmetric(newSpan, SpanOf(s.islands, s.bridges[a]));
      } else if a == n && b == n {
        SameOrientationNeverCrosses(newSpan, newSpan);
      }
    }
  }

  lemma BuildKeepsNoCrossing(s: State, k: nat, t: nat, allowInsertDoubleBridge: bool)
    requires Valid(s) && NoCrossing(s) && k < |s.islands| && t < |s.islands|
    ensures NoCrossing(BuildBridgeBetween(s, k, t, true, allowInsertDoubleBridge).1)
  {
    if BuildBridgeBetween(s, k, t, true, allowInsertDoubleBridge).0 {
      match BridgeBetween(s.bridges, k, t)
      case None =>
        NewBridgeNoCrossing(s, k, t);
      case Some(j) =>
        UpgradeBridgeKeepsValid(s, j);
    }
  }

  lemma BuildKeepsWithinCapacity(s: State, k: nat, t: nat, allowInsertDoubleBridge: bool)
    requires WellFormed(s) && WithinCapacity(s) && k < |s.islands| && t < |s.islands| && k != t
    ensures WithinCapacity(BuildBridgeBetween(s, k, t, true, allowInsertDoubleBridge).1)
  {
    if BuildBridgeBetween(s, k, t, true, allowInsertDoubleBridge).0 {
      BuildAttachesOneBridge(s, k, t, allowInsertDoubleBridge);
    }
  }

  /** A build keeps the game's constraints: no crossing bridges and no island
      beyond its capacity (for two different islands, as every caller passes). */
  lemma BuildKeepsPlayable(s: State, k: nat, t: nat, changeGameState: bool, allowInsertDoubleBridge: bool)
    requires Playable(s) && k < |s.islands| && t < |s.islands| && k != t
    ensures Playable(BuildBridgeBetween(s, k, t, changeGameState, allowInsertDoubleBridge).1)
  {
    BuildKeepsValid(s, k, t, changeGameState, allowInsertDoubleBridge);
    if changeGameState {
      BuildKeepsNoCrossing(s, k, t, allowInsertDoubleBridge);
      BuildKeepsWithinCapacity(s, k, t, allowInsertDoubleBridge);
    }
  }

  /** Clearing the marks keeps a valid board valid. */
  lemma ClearLatestKeepsValid(s: State)
    requires Valid(s)
    ensures var c := State(s.islands, ClearLatest(s.bridges));
            && WellFormed(c) && CountsMatch(c) && CanonicalOrder(c)
            && (forall i :: 0 <= i < |c.bridges| ==> !c.bridges[i].modifiedLatest)
            && (NoCrossing(s) ==> NoCrossing(c))
  {
    var cleared := ClearLatest(s.bridges);
    var c := State(s.islands, cleared);
    TransferSameEnds(s, c);
    forall m | 0 <= m < |s.islands| ensures s.islands[m].currentNrOfBridges == Degree(cleared, m) {
      ClearLatestKeepsRelations(s.bridges);
      DegreeIgnoresLatest(cleared, s.bridges, m);
    }
  }

  lemma RemoveDoubleKeepsValid(c: State, j: nat)
    requires WellFormed(c) && CountsMatch(c) && CanonicalOrder(c) && j < |c.bridges| && c.bridges[j].isDoubleBridge
    ensures var after := RemoveBridge(c.islands, c.bridges, j);
            var r := State(after.0, after.1);
            && WellFormed(r) && CountsMatch(r) && CanonicalOrder(r)
            && ((forall i :: 0 <= i < |c.bridges| ==> !c.bridges[i].modifiedLatest) ==> OnlyLatest(r.bridges, j))
            && (NoCrossing(c) ==> NoCrossing(r))
  {
    var after := RemoveBridge(c.islands, c.bridges, j);
    var r := State(after.0, after.1);
    RemoveBridgeKeepsCounts(c.islands, c.bridges, j);
    TransferSameEnds(c, r);
  }

  lemma RemoveSingleKeepsValid(c: State, j: nat)
    requires WellFormed(c) && CountsMatch(c) && CanonicalOrder(c) && j < |c.bridges| && !c.bridges[j].isDoubleBridge
    ensures var after := RemoveBridge(c.islands, c.bridges, j);
            var r := State(after.0, after.1);
            && WellFormed(r) && CountsMatch(r) && CanonicalOrder(r)
            && ((forall i :: 0 <= i < |c.bridges| ==> !c.bridges[i].modifiedLatest) ==>
                  forall i :: 0 <= i < |r.bridges| ==> !r.bridges[i].modifiedLatest)
            && (NoCrossing(c) ==> NoCrossing(r))
  {
    var after := RemoveBridge(c.islands, c.bridges, j);
    assert forall i :: 0 <= i < |after.1| ==> after.1[i] == c.bridges[if i < j then i else i + 1];
    RemoveBridgeKeepsCounts(c.islands, c.bridges, j);
    TransferDelete(c, after.0, j);
  }

  /** The board after removing the bridge at position j of the cleared list. */
  lemma RemoveAtKeepsValid(s: State, j: nat)
    requires Valid(s) && j < |s.bridges|
    ensures var cleared := ClearLatest(s.bridges);
            AllEndsIn(cleared, |s.islands|) &&
            var after := RemoveBridge(s.islands, cleared, j);
            var r := State(after.0, after.1);
            && Valid(r)
            && (NoCrossing(s) ==> NoCrossing(r))
            && (forall m :: 0 <= m < |s.islands| ==> r.islands[m].currentNrOfBridges <= s.islands[m].currentNrOfBridges)
  {
    var cleared := ClearLatest(s.bridges);
    var c := State(s.islands, cleared);
    assert WellFormed(c) by {
      ClearLatestKeepsValid(s);
    }
    var after := RemoveBridge(s.islands, cleared, j);
    var r := State(after.0, after.1);
    assert Valid(r) && (NoCrossing(s) ==> NoCrossing(r)) by {
      ClearLatestKeepsValid(s);
      if cleared[j].isDoubleBridge {
        RemoveDoubleKeepsValid(c, j);
      } else {
        RemoveSingleKeepsValid(c, j);
      }
    }
  }

  /** A removal keeps a valid board valid, and it keeps the game's
      constraints; no island gains a bridge, and afterwards at most one
      bridge is marked as modified latest. */
  lemma RemoveKeepsValid(s: State, k: nat, t: nat, changeGameState: bool)
    requires Valid(s)
    ensures var r := RemoveBridgeBetween(s, k, t, changeGameState);
            && Valid(r.1)
            && (Playable(s) ==> Playable(r.1))
            && (forall m :: 0 <= m < |s.islands| ==> r.1.islands[m].currentNrOfBridges <= s.islands[m].currentNrOfBridges)
  {
    var r := RemoveBridgeBetween(s, k, t, changeGameState);
    if r.0 && changeGameState {
      RemoveAtKeepsValid(s, BridgeBetween(s.bridges, k, t).value);
    }
  }

  /** A new single bridge is the one the lookup of its two ends finds. */
  lemma AddSingleIsFound(s: State, k: nat, t: nat)
    requires WellFormed(s) && k < |s.islands| && t < |s.islands|
    requires BridgeBetween(s.bridges, k, t).None?
    ensures BridgeBetween(AddSingleBridge(s, k, t).bridges, k, t) == Some(|s.bridges|)
  {
    var built := AddSingleBridge(s, k, t);
    var n := |s.bridges|;
    forall j | 0 <= j < n ensures !built.bridges[j].ContainsBoth(k, t) {
      assert built.bridges[j] == built.bridges[..n][j];
    }
  }

  /** Removing the single bridge that the lookup finds: one bridge fewer at
      each end, and the bridge gone from the list, every mark cleared. */
  lemma RemoveFoundSingle(s: State, j: nat, k: nat, t: nat)
    requires WellFormed(s) && BridgeBetween(s.bridges, k, t) == Some(j) && !s.bridges[j].isDoubleBridge
    ensures var r := RemoveBridgeBetween(s, k, t, true);
            && r.0 && |r.1.islands| == |s.islands|
            && (forall m :: 0 <= m < |s.islands| ==>
                  r.1.islands[m].currentNrOfBridges == s.islands[m].currentNrOfBridges - s.bridges[j].Ends(m))
            && r.1.bridges == ClearLatest(s.bridges)[..j] + ClearLatest(s.bridges)[j + 1..]
  {
  }

  lemma RemoveUndoesAddSingle(s: State, k: nat, t: nat)
    requires WellFormed(s) && k < |s.islands| && t < |s.islands|
    requires BridgeBetween(s.bridges, k, t).None?
    ensures var built := AddSingleBridge(s, k, t);
            var removed := RemoveBridgeBetween(built, k, t, true);
            && removed.0
            && removed.1.islands == s.islands
            && SameRelations(removed.1.bridges, s.bridges)
  {
    var built := AddSingleBridge(s, k, t);
    var n := |s.bridges|;
    AddSingleIsFound(s, k, t);
    RemoveFoundSingle(built, n, k, t);
    var removed := RemoveBridgeBetween(built, k, t, true);
    var cleared := ClearLatest(built.bridges);
    assert SameRelations(removed.1.bridges, s.bridges) by {
      assert removed.1.bridges == cleared[..n];
      forall j | 0 <= j < n ensures removed.1.bridges[j] == s.bridges[j].SetModifiedLatest(false) {
        assert built.bridges[j] == built.bridges[..n][j];
      }
    }
    forall m | 0 <= m < |s.islands| ensures removed.1.islands[m].currentNrOfBridges == s.islands[m].currentNrOfBridges {
      assert OrderedBridge(s.islands, k, t, false).Ends(m) == built.bridges[n].Ends(m);
    }
    SameIslandsByCounts(removed.1.islands, s.islands);
  }

  /** Upgrading a bridge leaves the lookup of its two ends where it was. */
  lemma UpgradeKeepsLookup(s: State, j: nat, k: nat, t: nat)
    requires WellFormed(s) && BridgeBetween(s.bridges, k, t) == Some(j) && !s.bridges[j].isDoubleBridge
    ensures BridgeBetween(UpgradeBridge(s, j).bridges, k, t) == Some(j)
  {
    var built := UpgradeBridge(s, j);
    assert forall i :: 0 <= i < |built.bridges| ==> (built.bridges[i].ContainsBoth(k, t) <==> s.bridges[i].ContainsBoth(k, t));
  }

  /** Removing the double bridge that the lookup finds: one bridge fewer at
      each end, and the bridge single again, every mark cleared but its own. */
  lemma RemoveFoundDouble(s: State, j: nat, k: nat, t: nat)
    requires WellFormed(s) && BridgeBetween(s.bridges, k, t) == Some(j) && s.bridges[j].isDoubleBridge
    ensures var r := RemoveBridgeBetween(s, k, t, true);
            && r.0 && |r.1.islands| == |s.islands|
            && (forall m :: 0 <= m < |s.islands| ==>
                  r.1.islands[m].currentNrOfBridges == s.islands[m].currentNrOfBridges - s.bridges[j].Ends(m))
            && r.1.bridges == ClearLatest(s.bridges)[j := Bridge(s.bridges[j].island1, s.bridges[j].island2, false, true)]
  {
  }

  lemma RemoveUndoesUpgrade(s: State, j: nat, k: nat, t: nat)
    requires WellFormed(s) && BridgeBetween(s.bridges, k, t) == Some(j) && !s.bridges[j].isDoubleBridge
    ensures var built := UpgradeBridge(s, j);
            var removed := RemoveBridgeBetween(built, k, t, true);
            && removed.0
            && removed.1.islands == s.islands
            && SameRelations(removed.1.bridges, s.bridges)
  {
    var built := UpgradeBridge(s, j);
    UpgradeKeepsLookup(s, j, k, t);
    RemoveFoundDouble(built, j, k, t);
    var removed := RemoveBridgeBetween(built, k, t, true);
    UndoneUpgrade(s, j, built, removed.1);
  }

  /** The board after an upgrade of bridge j and the removal of one of its two
      bridges has the islands and the relations of the board before. */
  lemma UndoneUpgrade(s: State, j: nat, built: State, removed: State)
    requires WellFormed(s) && j < |s.bridges| && !s.bridges[j].isDoubleBridge
    requires SamePlaces(built.islands, s.islands) && SamePlaces(removed.islands, built.islands)
    requires built.bridges == ClearLatest(s.bridges)[j := Bridge(s.bridges[j].island1, s.bridges[j].island2, true, true)]
    requires forall m :: 0 <= m < |s.islands| ==>
               built.islands[m].currentNrOfBridges == s.islands[m].currentNrOfBridges + s.bridges[j].Ends(m)
    requires forall m :: 0 <= m < |built.islands| ==>
               removed.islands[m].currentNrOfBridges == built.islands[m].currentNrOfBridges - built.bridges[j].Ends(m)
    requires removed.bridges
             == ClearLatest(built.bridges)[j := Bridge(built.bridges[j].island1, built.bridges[j].island2, false, true)]
    ensures removed.islands == s.islands && SameRelations(removed.bridges, s.bridges)
  {
    forall m | 0 <= m < |s.islands| ensures removed.islands[m].currentNrOfBridges == s.islands[m].currentNrOfBridges {
      assert built.bridges[j].Ends(m) == s.bridges[j].Ends(m);
    }
    SameIslandsByCounts(removed.islands, s.islands);
    forall i | 0 <= i < |s.bridges|
      ensures removed.bridges[i].island1 == s.bridges[i].island1 && removed.bridges[i].island2 == s.bridges[i].island2
              && removed.bridges[i].isDoubleBridge == s.bridges[i].isDoubleBridge
    {
      if i != j {
        assert built.bridges[i] == s.bridges[i].SetModifiedLatest(false);
      }
    }
  }

  /** Islands at the same places with the same capacities and counts are the same islands. */
  lemma SameIslandsByCounts(a: seq<Island>, b: seq<Island>)
    requires SamePlaces(a, b)
    requires forall m :: 0 <= m < |a| ==> a[m].currentNrOfBridges == b[m].currentNrOfBridges
    ensures a == b
  {
    forall m | 0 <= m < |a| ensures a[m] == b[m] {
      assert a[m].Position() == b[m].Position();
    }
  }

  /** Removing the bridge just built between two islands gives back the same
      islands and the same bridges, up to the modified-latest marks. */
  lemma RemoveUndoesBuild(s: State, k: nat, t: nat, allowInsertDoubleBridge: bool)
    requires WellFormed(s) && k < |s.islands| && t < |s.islands|
    requires BuildBridgeBetween(s, k, t, true, allowInsertDoubleBridge).0
    ensures var built := BuildBridgeBetween(s, k, t, true, allowInsertDoubleBridge).1;
            var removed := RemoveBridgeBetween(built, k, t, true);
            && removed.0
            && removed.1.islands == s.islands
            && SameRelations(removed.1.bridges, s.bridges)
  {
    match BridgeBetween(s.bridges, k, t)
    case None =>
      RemoveUndoesAddSingle(s, k, t);
    case Some(j) =>
      RemoveUndoesUpgrade(s, j, k, t);
  }

  /** A build request followed by the matching remove request gives back the
      same islands and the same bridges, up to the modified-latest marks. */
  lemma BuildOrRemoveRoundTrip(s: State, row: int, column: int, direction: CardinalPoint)
    requires WellFormed(s)
    requires BuildOrRemoveBridge(s, row, column, direction, false, true).0
    ensures var built := BuildOrRemoveBridge(s, row, column, direction, false, true).1;
            var removed := BuildOrRemoveBridge(built, row, column, direction, true, true);
            && removed.0
            && removed.1.islands == s.islands
            && SameRelations(removed.1.bridges, s.bridges)
  {
    var k := GetIsland(row, column, s.islands).value;
    var t := Neighbour(s.islands, s.islands[k].Position(), direction).value;
    var built := BuildBridgeBetween(s, k, t, true, true).1;
    RemoveUndoesBuild(s, k, t, true);
    SamePlacesKeepLookups(s.islands, built.islands, row, column, direction);
  }

  /** Island lookups see only positions, so counts do not affect them. */
  lemma SamePlacesKeepLookups(a: seq<Island>, b: seq<Island>, row: int, column: int, direction: CardinalPoint)
    requires SamePlaces(a, b)
    ensures GetIsland(row, column, a) == GetIsland(row, column, b)
    ensures forall p :: Neighbour(a, p, direction) == Neighbour(b, p, direction)
  {
    SamePlacesGetIslandFrom(a, b, row, column, 0);
    forall p ensures Neighbour(a, p, direction) == Neighbour(b, p, direction) {
      SamePlacesNearestFrom(a, b, p, direction, 0, None);
    }
  }

  lemma {:induction false} SamePlacesGetIslandFrom(a: seq<Island>, b: seq<Island>, row: int, column: int, i: nat)
    requires SamePlaces(a, b) && i <= |a|
    ensures GetIslandFrom(row, column, a, i) == GetIslandFrom(row, column, b, i)
    decreases |a| - i
  {
    if i < |a| {
      SamePlacesGetIslandFrom(a, b, row, column, i + 1);
    }
  }

  lemma {:induction false} SamePlacesNearestFrom(a: seq<Island>, b: seq<Island>, p: Pos, d: CardinalPoint,
                                                 i: nat, best: Option<nat>)
    requires SamePlaces(a, b) && i <= |a|
    requires best.Some? ==> IsNearestAmong(a, p, d, i, best.value)
    requires best.None? ==> NoneBeyond(a, p, d, i)
    ensures best.Some? ==> IsNearestAmong(b, p, d, i, best.value)
    ensures best.None? ==> NoneBeyond(b, p, d, i)
    ensures NearestFrom(a, p, d, i, best) == NearestFrom(b, p, d, i, best)
    decreases |a| - i
  {
    if i < |a| {
      if Beyond(p, a[i].Position(), d)
         && (best.None? || Distance(p, a[i].Position(), d) < Distance(p, a[best.value].Position(), d)) {
        SamePlacesNearestFrom(a, b, p, d, i + 1, Some(i));
      } else {
        SamePlacesNearestFrom(a, b, p, d, i + 1, best);
      }
    }
  }

  /** A restarted board keeps the game's constraints whenever no capacity is negative. */
  lemma RestartIsPlayable(s: State)
    requires forall k :: 0 <= k < |s.islands| ==> s.islands[k].bridgeCapacity >= 0
    ensures Playable(Restart(s))
  {
  }

  // ----- the solved test -----

  /** The number of islands that have no bridge capacity left. */
  function CountFull(islands: seq<Island>): (r: nat)
    ensures r <= |islands|
  {
    if islands == [] then 0
    else CountFull(islands[..|islands| - 1]) + if islands[|islands| - 1].CurrentBridgeCapacity() == 0 then 1 else 0
  }

  lemma {:induction false} CountFullIsAll(islands: seq<Island>)
    ensures CountFull(islands) == |islands| <==>
              forall k :: 0 <= k < |islands| ==> islands[k].CurrentBridgeCapacity() == 0
  {
    if islands != [] {
      CountFullIsAll(islands[..|islands| - 1]);
    }
  }

  /** isGameSolved for a board whose islands field says nrOfIslands: false
      unless nrOfIslands islands have no capacity left; then (when there is a
      first island) whether the search from the first island reaches
      nrOfIslands islands. None: the list of islands is empty, so the first
      island does not exist. */
  ghost function IsGameSolved(nrOfIslands: int, s: State): Option<bool>
    requires WellFormed(s)
  {
    if CountFull(s.islands) != nrOfIslands then Some(false)
    else if |s.islands| == 0 then None
    else Some(|Component(s.bridges, |s.islands|, 0)| == nrOfIslands)
  }

  lemma {:induction false} BelowSize(n: nat)
    ensures |Below(n)| == n
  {
    if n > 0 {
      BelowSize(n - 1);
      var smaller := Below(n - 1);
      assert n - 1 !in smaller;
      assert Below(n) == smaller + {n - 1};
      assert |smaller + {n - 1}| == |smaller| + 1;
    }
  }

  lemma FullComponent(bridges: seq<Bridge>, n: nat)
    requires n > 0
    ensures |Component(bridges, n, 0)| == n <==> forall t :: 0 <= t < n ==> Connected(bridges, 0, t)
  {
    var c := Component(bridges, n, 0);
    BelowSize(n);
    assert c <= Below(n);
    if |c| == n {
      assert |Below(n) - c| == 0 by {
        assert Below(n) == c + (Below(n) - c);
      }
      forall t | 0 <= t < n ensures Connected(bridges, 0, t) {
        assert t in Below(n);
      }
    }
    if forall t :: 0 <= t < n ==> Connected(bridges, 0, t) {
      assert c == Below(n);
    }
  }

  /** On a board that lists as many islands as its islands field says, the
      game is solved exactly when there is at least one island, every island
      has all its bridges, and every island can be reached from the first
      island over bridges. The test fails (no result) only on an empty board. */
  lemma SolvedMeansComplete(nrOfIslands: int, s: State)
    requires WellFormed(s) && nrOfIslands == |s.islands|
    ensures IsGameSolved(nrOfIslands, s) == Some(true) <==>
              && |s.islands| > 0
              && (forall k :: 0 <= k < |s.islands| ==> s.islands[k].currentNrOfBridges == s.islands[k].bridgeCapacity)
              && (forall t :: 0 <= t < |s.islands| ==> Connected(s.bridges, 0, t))
    ensures IsGameSolved(nrOfIslands, s).None? <==> |s.islands| == 0
  {
    CountFullIsAll(s.islands);
    if |s.islands| > 0 {
      FullComponent(s.bridges, |s.islands|);
    }
  }

  /** The solved test throws only when there are no islands and none are declared. */
  lemma SolvedTestThrows(nrOfIslands: int, s: State)
    requires WellFormed(s)
    ensures IsGameSolved(nrOfIslands, s).None? <==> |s.islands| == 0 && nrOfIslands == 0
    ensures |s.islands| == 0 && nrOfIslands != 0 ==> IsGameSolved(nrOfIslands, s) == Some(false)
  {
  }

  /** Three islands needing one bridge each, the first two joined by a single
      bridge; the third island has none. */
  function MiscountedBoard(): State {
    State([Island(0, 0, 1, 1), Island(0, 2, 1, 1), Island(4, 4, 1, 0)], [Bridge(0, 1, false, false)])
  }

  /** With two islands declared, the solved test counts two full islands and
      a search that reaches two, and reports the board solved, although the
      third island has no bridge. */
  lemma SolvedWithMisdeclaredCount()
    ensures WellFormed(MiscountedBoard()) && CountsMatch(MiscountedBoard())
    ensures IsGameSolved(2, MiscountedBoard()) == Some(true)
    ensures MiscountedBoard().islands[2].currentNrOfBridges != MiscountedBoard().islands[2].bridgeCapacity
  {
    var s := MiscountedBoard();
    assert EndsIn(s.bridges[0], |s.islands|);
    assert CountFull(s.islands) == 2 by {
      assert s.islands[..2][..1] == s.islands[..1];
    }
    ConnectedToItself(s.bridges, 0);
    assert Adjacent(s.bridges, 0, 1) by {
      assert s.bridges[0].island1 == 0 && s.bridges[0].island2 == 1;
    }
    ConnectedStep(s.bridges, 0, 0, 1);
    forall t | Connected(s.bridges, 0, t) ensures t in {0, 1} {
      ClosedSetHoldsComponent(s.bridges, 0, {0, 1}, t);
    }
    assert Component(s.bridges, 3, 0) == {0, 1};
  }
}
