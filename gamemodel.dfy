/** The board object of GameModel.java: its dimensions, its island count and
    its lists of islands and bridges, updated in place by loading, building,
    removing, restarting, solving and generating. Each method is proved to
    end in the state the transition functions of Rules, Solver, Generator
    and GameModelIO describe for the code as written. */
module Board {
  import opened Wrappers
  import opened Islands
  import opened Bridges
  import opened GameModelUtils
  import opened Rules
  import opened Solver
  import opened Generator
  import opened GameModelIO

  class GameModel {
    var nrOfRows: int
    var nrOfColumns: int
    var nrOfIslands: int
    var islands: seq<Island>
    var bridges: seq<Bridge>
    /** The order in which the neighbour map of getNeighbours yields the
        directions (a HashMap over the enum; no particular order is assumed). */
    const neighbourOrder: seq<CardinalPoint>

    /** The islands and bridges as a board value. */
    function Current(): State
      reads this
    {
      State(islands, bridges)
    }

    /** The fields as the file format sees them. */
    function Data(): GameData
      reads this
    {
      GameData(nrOfRows, nrOfColumns, nrOfIslands, islands, bridges)
    }

    /** Every bridge joins two islands of the board. */
    predicate WellFormedBoard()
      reads this
    {
      WellFormed(Current())
    }

    /** new GameModel(): no dimensions, no islands, no bridges. */
    constructor(order: seq<CardinalPoint>)
      ensures Data() == GameData(0, 0, 0, [], []) && neighbourOrder == order
      ensures WellFormedBoard()
    {
      nrOfRows, nrOfColumns, nrOfIslands := 0, 0, 0;
      islands, bridges := [], [];
      neighbourOrder := order;
    }

    /** loadGame: on success the board becomes the loaded one; on a format
        error (false) the board is left as it was. */
    method LoadGame(fileLines: seq<string>) returns (loaded: bool)
      modifies this
      ensures loaded <==> Load(fileLines).Ok?
      ensures loaded ==> Data() == Load(fileLines).value
      ensures loaded ==> Valid(Current()) && CanonicalOrder(Current())
      ensures !loaded ==> Data() == old(Data())
    {
      var newGameModel := GameModelIO.LoadGame(fileLines);
      if newGameModel.Err? {
        return false;
      }
      var g := newGameModel.value;
      islands := g.islands;
      bridges := g.bridges;
      nrOfColumns := g.nrOfColumns;
      nrOfIslands := g.nrOfIslands;
      nrOfRows := g.nrOfRows;
      loaded := true;
    }

    /** toFileFormat as written: the BRIDGES marker and the bridge entries run
        together on the last line (RoundTrip.SavedBridgesDoNotReload). */
    method ToFileFormat() returns (text: string)
      ensures text == FileText(Data(), RunTogether)
    {
      text := GameModelIO.ToFileFormat(Data(), RunTogether);
    }

    /** The public buildOrRemoveBridge: the request is carried out. */
    method BuildOrRemoveBridge(row: int, column: int, direction: CardinalPoint, remove: bool)
      returns (changed: bool)
      requires WellFormedBoard()
      modifies this
      ensures (changed, Current())
              == Rules.BuildOrRemoveBridge(old(Current()), row, column, direction, remove, true)
      ensures WellFormedBoard() && SamePlaces(islands, old(islands))
      ensures nrOfRows == old(nrOfRows) && nrOfColumns == old(nrOfColumns) && nrOfIslands == old(nrOfIslands)
    {
      changed := BuildOrRemoveBridgeWith(row, column, direction, remove, true);
    }

    /** The private buildOrRemoveBridge: the island at the requested cell, its
        neighbour in the requested direction, then a removal or a build with
        double bridges allowed; without changeGameState the board is kept. */
    method BuildOrRemoveBridgeWith(row: int, column: int, direction: CardinalPoint, remove: bool,
                                   changeGameState: bool)
      returns (changed: bool)
      requires WellFormedBoard()
      modifies this
      ensures (changed, Current())
              == Rules.BuildOrRemoveBridge(old(Current()), row, column, direction, remove, changeGameState)
      ensures WellFormedBoard() && SamePlaces(islands, old(islands))
      ensures nrOfRows == old(nrOfRows) && nrOfColumns == old(nrOfColumns) && nrOfIslands == old(nrOfIslands)
    {
      var possibleIsland := GetIsland(row, column, islands);
      if possibleIsland.None? {
        return false;
      }
      var island := possibleIsland.value;
      var wantedTargetIsland := Neighbour(islands, islands[island].Position(), direction);
      if wantedTargetIsland.None? {
        return false;
      }
      var targetIsland := wantedTargetIsland.value;
      assert targetIsland < |islands| by {
        assert IsNearestAmong(islands, islands[island].Position(), direction, |islands|, targetIsland);
      }
      if remove {
        changed := RemoveBridgeBetweenIslands(island, targetIsland, changeGameState);
      } else {
        changed := BuildBridgeBetweenIslands(island, targetIsland, changeGameState, true);
      }
    }

    /** removeBridgeBetweenIslands: false when no bridge joins the two islands;
        otherwise true, and with changeGameState every mark is cleared and the
        bridge is removed (a double one becomes single). */
    method RemoveBridgeBetweenIslands(island: nat, targetIsland: nat, changeGameState: bool)
      returns (removed: bool)
      requires WellFormedBoard()
      modifies this
      ensures (removed, Current()) == RemoveBridgeBetween(old(Current()), island, targetIsland, changeGameState)
      ensures WellFormedBoard() && SamePlaces(islands, old(islands))
      ensures nrOfRows == old(nrOfRows) && nrOfColumns == old(nrOfColumns) && nrOfIslands == old(nrOfIslands)
    {
      var possibleBridge := GetBridgeBetweenIslands(island, targetIsland, bridges);
      if possibleBridge.None? {
        return false;
      }
      if changeGameState {
        var cleared := ClearMarks(bridges);
        assert AllEndsIn(cleared, |islands|) by {
          forall m | 0 <= m < |cleared| ensures EndsIn(cleared[m], |islands|) {
            assert EndsIn(bridges[m], |islands|);
          }
        }
        var after := RemoveBridge(islands, cleared, possibleBridge.value);
        islands, bridges := after.0, after.1;
      }
      removed := true;
    }

    /** buildBridgeBetweenIslands: a new single bridge when none joins the two
        islands, both have capacity left and it crosses no bridge; an upgrade
        to a double bridge when a single one joins them, upgrades are allowed
        and both have capacity left; false otherwise. Only with
        changeGameState does the board change. */
    method BuildBridgeBetweenIslands(island: nat, targetIsland: nat, changeGameState: bool,
                                     allowInsertDoubleBridge: bool)
      returns (added: bool)
      requires WellFormedBoard() && island < |islands| && targetIsland < |islands|
      modifies this
      ensures (added, Current())
              == BuildBridgeBetween(old(Current()), island, targetIsland, changeGameState, allowInsertDoubleBridge)
      ensures WellFormedBoard() && SamePlaces(islands, old(islands))
      ensures nrOfRows == old(nrOfRows) && nrOfColumns == old(nrOfColumns) && nrOfIslands == old(nrOfIslands)
    {
      var possibleBridge := GetBridgeBetweenIslands(island, targetIsland, bridges);
      if possibleBridge.None? {
        if islands[island].CurrentBridgeCapacity() > 0 && islands[targetIsland].CurrentBridgeCapacity() > 0 {
          var potentialNewBridge := CanonicalSpan(islands[island].Position(), islands[targetIsland].Position());
          var i := 0;
          while i < |bridges|
            invariant 0 <= i <= |bridges|
            invariant forall j :: 0 <= j < i ==> !AreCrossingBridges(potentialNewBridge, SpanOf(islands, bridges[j]))
          {
            assert EndsIn(bridges[i], |islands|);
            if AreCrossingBridges(potentialNewBridge, SpanOf(islands, bridges[i])) {
              return false;
            }
            i := i + 1;
          }
          if changeGameState {
            var cleared := ClearMarks(bridges);
            var newBridge := ConstructBridge(islands, island, targetIsland, false, true);
            islands := newBridge.1;
            bridges := cleared + [newBridge.0.SetModifiedLatest(true)];
          }
          return true;
        }
        return false;
      }
      var j := possibleBridge.value;
      var bridge := bridges[j];
      if bridge.isDoubleBridge {
        return false;
      }
      if allowInsertDoubleBridge && islands[island].CurrentBridgeCapacity() > 0
         && islands[targetIsland].CurrentBridgeCapacity() > 0
      {
        if changeGameState {
          assert EndsIn(bridge, |islands|);
          var cleared := ClearMarks(bridges);
          bridges := cleared[j := cleared[j].SetDoubleBridge(true).SetModifiedLatest(true)];
          islands := AddToCount(islands, bridge.island1, 1);
          islands := AddToCount(islands, bridge.island2, 1);
        }
        return true;
      }
      return false;
    }

    /** restartGame: every bridge removed and every island's count reset to 0. */
    method RestartGame()
      modifies this
      ensures Current() == Restart(old(Current()))
      ensures nrOfRows == old(nrOfRows) && nrOfColumns == old(nrOfColumns) && nrOfIslands == old(nrOfIslands)
    {
      ghost var before := islands;
      bridges := [];
      var i := 0;
      while i < |islands|
        invariant 0 <= i <= |islands| == |before|
        invariant forall j :: 0 <= j < i ==> islands[j] == before[j].SetCurrentNrOfBridges(0)
        invariant forall j :: i <= j < |islands| ==> islands[j] == before[j]
        invariant bridges == []
        invariant nrOfRows == old(nrOfRows) && nrOfColumns == old(nrOfColumns) && nrOfIslands == old(nrOfIslands)
      {
        islands := islands[i := islands[i].SetCurrentNrOfBridges(0)];
        i := i + 1;
      }
      ResetCountsSpec(before);
    }

    /** isGameSolved: None when the count of full islands matches but there is
        no first island to search from (the list access throws). */
    method IsGameSolved() returns (solved: Option<bool>)
      requires WellFormedBoard()
      ensures solved == Rules.IsGameSolved(nrOfIslands, Current())
    {
      var nrIslandWithNoBridgeCapacity := CountFull(islands);
      if nrIslandWithNoBridgeCapacity != nrOfIslands {
        return Some(false);
      }
      if |islands| == 0 {
        return None;
      }
      var nrOfReachableIslands := DepthFirstSearch(0, bridges, |islands|);
      return Some(nrOfReachableIslands == nrOfIslands);
    }

    /** solveNextBridge: each island in list order, until a step succeeds. */
    method SolveNextBridge() returns (bridgeAdded: bool)
      requires WellFormedBoard()
      modifies this
      ensures (bridgeAdded, Current()) == Solver.SolveNextBridge(old(Current()), nrOfIslands, neighbourOrder, SecondBuildOnly)
      ensures WellFormedBoard() && SamePlaces(islands, old(islands))
      ensures nrOfRows == old(nrOfRows) && nrOfColumns == old(nrOfColumns) && nrOfIslands == old(nrOfIslands)
    {
      ghost var start := Current();
      var i := 0;
      while i < |islands|
        invariant WellFormedBoard() && SamePlaces(islands, start.islands) && 0 <= i <= |islands|
        invariant SolveFrom(Current(), nrOfIslands, neighbourOrder, SecondBuildOnly, i)
                  == SolveFrom(start, nrOfIslands, neighbourOrder, SecondBuildOnly, 0)
        invariant nrOfRows == old(nrOfRows) && nrOfColumns == old(nrOfColumns) && nrOfIslands == old(nrOfIslands)
      {
        bridgeAdded := SolveNextBridge1(i);
        if bridgeAdded {
          return;
        }
        i := i + 1;
      }
      bridgeAdded := false;
    }

    /** solveNextBridge1(islands[k]), whose double-bridge rule reports only
        the second build (see SolverFindings). */
    method SolveNextBridge1(k: nat) returns (bridgeAdded: bool)
      requires WellFormedBoard() && k < |islands|
      modifies this
      ensures (bridgeAdded, Current())
              == Solver.SolveNextBridge1(old(Current()), nrOfIslands, k, neighbourOrder, SecondBuildOnly)
      ensures WellFormedBoard() && SamePlaces(islands, old(islands))
      ensures nrOfRows == old(nrOfRows) && nrOfColumns == old(nrOfColumns) && nrOfIslands == old(nrOfIslands)
    {
      var bridgeCapacity := islands[k].bridgeCapacity;
      var allNeighbours := GetReachibleNeighbours(k, islands, bridges, neighbourOrder);
      ReachibleNeighboursSpec(islands, bridges, k, neighbourOrder);
      assert forall j :: 0 <= j < |allNeighbours| ==> allNeighbours[j] < |islands| by {
        forall j | 0 <= j < |allNeighbours| ensures allNeighbours[j] < |islands| {
          assert allNeighbours[j] in allNeighbours;
        }
      }
      var open := WithCapacityLeft(islands, allNeighbours);
      bridgeAdded := false;
      if |open| == 1 {
        var nIsland := open[0];
        if !DeadlockGuard(nrOfIslands, islands[k], islands[nIsland], 1) {
          bridgeAdded := BuildBridgeBetweenIslands(k, nIsland, true, true);
        }
      } else if 2 * |allNeighbours| - 1 == bridgeCapacity {
        bridgeAdded := TrySingleBridges(k, allNeighbours);
      } else if 2 * |allNeighbours| == bridgeCapacity {
        bridgeAdded := TryDoubleBridges(k, allNeighbours);
      }
    }

    /** The loop of the 2n - 1 rule: a single bridge to each neighbour in turn
        (unless the guard forbids it), until one is built. */
    method TrySingleBridges(k: nat, allNeighbours: seq<nat>) returns (bridgeAdded: bool)
      requires WellFormedBoard() && k < |islands|
      requires forall j :: 0 <= j < |allNeighbours| ==> allNeighbours[j] < |islands|
      modifies this
      ensures (bridgeAdded, Current()) == SingleBridgeRule(old(Current()), nrOfIslands, k, allNeighbours, 0)
      ensures WellFormedBoard() && SamePlaces(islands, old(islands))
      ensures nrOfRows == old(nrOfRows) && nrOfColumns == old(nrOfColumns) && nrOfIslands == old(nrOfIslands)
    {
      ghost var start := Current();
      var i := 0;
      while i < |allNeighbours|
        invariant WellFormedBoard() && SamePlaces(islands, start.islands) && 0 <= i <= |allNeighbours|
        invariant SingleBridgeRule(Current(), nrOfIslands, k, allNeighbours, i)
                  == SingleBridgeRule(start, nrOfIslands, k, allNeighbours, 0)
        invariant nrOfRows == old(nrOfRows) && nrOfColumns == old(nrOfColumns) && nrOfIslands == old(nrOfIslands)
      {
        var neighbourIsland := allNeighbours[i];
        if !DeadlockGuard(nrOfIslands, islands[k], islands[neighbourIsland], 1) {
          bridgeAdded := BuildBridgeBetweenIslands(k, neighbourIsland, true, false);
          if bridgeAdded {
            return;
          }
        }
        i := i + 1;
      }
      bridgeAdded := false;
    }

    /** The loop of the 2n rule: two builds towards each neighbour in turn
        (unless the guard forbids it), until the second of them adds a bridge;
        the first build's result is overwritten, as in the Java method. */
    method TryDoubleBridges(k: nat, allNeighbours: seq<nat>) returns (bridgeAdded: bool)
      requires WellFormedBoard() && k < |islands|
      requires forall j :: 0 <= j < |allNeighbours| ==> allNeighbours[j] < |islands|
      modifies this
      ensures (bridgeAdded, Current()) == DoubleBridgeRule(old(Current()), nrOfIslands, k, allNeighbours, 0, SecondBuildOnly)
      ensures WellFormedBoard() && SamePlaces(islands, old(islands))
      ensures nrOfRows == old(nrOfRows) && nrOfColumns == old(nrOfColumns) && nrOfIslands == old(nrOfIslands)
    {
      ghost var start := Current();
      var i := 0;
      while i < |allNeighbours|
        invariant WellFormedBoard() && SamePlaces(islands, start.islands) && 0 <= i <= |allNeighbours|
        invariant DoubleBridgeRule(Current(), nrOfIslands, k, allNeighbours, i, SecondBuildOnly)
                  == DoubleBridgeRule(start, nrOfIslands, k, allNeighbours, 0, SecondBuildOnly)
        invariant nrOfRows == old(nrOfRows) && nrOfColumns == old(nrOfColumns) && nrOfIslands == old(nrOfIslands)
      {
        var neighbourIsland := allNeighbours[i];
        ghost var before := Current();
        if !DeadlockGuard(nrOfIslands, islands[k], islands[neighbourIsland], 2) {
          DoubleBridgeRuleStep(before, nrOfIslands, k, allNeighbours, i, SecondBuildOnly);
          bridgeAdded := BuildBridgeBetweenIslands(k, neighbourIsland, true, true);
          bridgeAdded := BuildBridgeBetweenIslands(k, neighbourIsland, true, true);
          if bridgeAdded {
            return;
          }
        }
        i := i + 1;
      }
      bridgeAdded := false;
    }

    /** createNewGame: on success the board has the requested dimensions,
        nrOfIslands islands, no bridges, and a solution; on failure it is left
        as it was. */
    method CreateNewGame(nrOfRows: int, nrOfColumns: int, nrOfIslands: int) returns (created: bool)
      requires nrOfRows > 0 && nrOfColumns > 0
      modifies this
      ensures created ==> this.nrOfRows == nrOfRows && this.nrOfColumns == nrOfColumns
                          && this.nrOfIslands == nrOfIslands && |islands| == nrOfIslands && bridges == []
      ensures created ==> exists t :: GrowingTree(t, nrOfRows, nrOfColumns) && islands == Freeze(t.islands)
      ensures created ==> exists sol :: Playable(sol) && Rules.IsGameSolved(nrOfIslands, sol) == Some(true)
                                        && Restart(sol) == Current()
      ensures !created ==> Data() == old(Data())
    {
      var newGameIslands, newGameBridges, additionSucessfull := GrowTree(nrOfRows, nrOfColumns, nrOfIslands);
      if |newGameIslands| == nrOfIslands && additionSucessfull {
        ghost var tree := State(newGameIslands, newGameBridges);
        GeneratedGameIsSolvable(tree, nrOfRows, nrOfColumns);
        var frozen := FreezeCapacities(newGameIslands);
        this.nrOfColumns := nrOfColumns;
        this.nrOfIslands := nrOfIslands;
        this.nrOfRows := nrOfRows;
        this.bridges := [];
        this.islands := frozen;
        created := true;
      } else {
        created := false;
      }
    }
  }

  /** Resetting the counts changes every island the same way, by itself. */
  lemma ResetCountsSpec(islands: seq<Island>)
    ensures ResetCounts(islands) == seq(|islands|, j requires 0 <= j < |islands| => islands[j].SetCurrentNrOfBridges(0))
  {
    var reset := ResetCounts(islands);
    forall j | 0 <= j < |islands| ensures reset[j] == islands[j].SetCurrentNrOfBridges(0) {
      assert reset[j] == Island(reset[j].row, reset[j].column, reset[j].bridgeCapacity, reset[j].currentNrOfBridges);
    }
  }
}
