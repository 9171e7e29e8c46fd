# Bridges (Hashiwokakero) game model in Dafny

This project models the game model of grimso/bridges, a Java implementation of
the puzzle *Hashiwokakero*. Islands sit on the cells of a grid. Each island
needs a given number of bridges. Bridges run horizontally or vertically
between neighbouring islands. Two islands share at most a single or a double
bridge. Bridges never cross. The puzzle is solved when every island has its
number of bridges and all islands are connected.

The model covers five Java files:

- `Island` and `Bridge` are values (`Islands`, `Bridges`).
  - Bridges hold the list positions of their two islands. This models Java's
    comparison by reference identity.
  - A setter becomes a function that returns the updated value.
- The queries of `GameModelUtils.java` are functions, and each of its loops is
  a method proved equal to the function (`GameModelUtils`).
- The game rules of `GameModel.java` are split up:
  - building, removing, restarting and the solved test are transitions on a
    board value (`Rules`);
  - the one-step solver is in `Solver`;
  - the random generator is in `Generator`.
- The board itself is `class GameModel` (`Board`).
  - Its fields are reassigned by methods with `modifies this`.
  - Each method is proved to end in the state the transition function
    describes for the code as written. This includes the two defects under
    "Findings": the 2n solver rule keeps only the second build's result, and
    the writer runs the bridge entries together. The corrected rule and
    layout, and what they achieve, are proved in `Solver` and `RoundTrip`.
- The text format `GameModelIO.java` is in `GameModelIO`, with the Java
  library routines it relies on in `JavaStrings`.
  - The parser is a function over the lines that fails with a format error.
  - The writer is a method proved equal to a text function.
  - The round trip between the two is in `RoundTrip`.
- Two places where the code does not do what it evidently means are shown in
  `SolverFindings` and `RoundTrip` (see "Findings").

The main results:

- Building and removing keep a board valid:
  - every bridge joins two islands;
  - the counts match the bridges;
  - the ends are in canonical order;
  - at most one bridge is marked as modified latest;
  - no two bridges cross;
  - no island has more bridges than it needs.
- Removing undoes building.
- The solver never takes a bridge away. When it reports progress, the board
  gained a bridge.
- The search counts the island's connected component exactly.
- When the declared island count equals the number of islands,
  `isGameSolved` holds exactly for full, connected boards. The loader does not
  check that the two agree, and with a smaller declared count a board with an
  island that has no bridge can count as solved.
- The generator grows a tree of straight, non-crossing bridges in free grid
  cells, so every generated game has a solution.
- The parser reads back each line the writer writes. A whole saved board
  reloads as the same board up to the stable sort of islands and bridges,
  once the bridge section is written one entry per line.

## Model

| member | source | states |
|---|---|---|
| Islands.NewIsland | game/src/model/Island.java:28-32 | a new island is at (row, column), needs bridgeCapacity bridges, has none attached, and so has its whole capacity left |
| Islands.Island.CurrentBridgeCapacity | game/src/model/Island.java:50-52 | the capacity left plus the bridges attached is the capacity |
| Islands.Island.SetCurrentNrOfBridges | game/src/model/Island.java:72-74 | only the count changes; position and capacity stay, and the capacity left is the capacity minus the new count |
| Islands.Island.SetBridgeCapacity | game/src/model/Island.java:88-90 | only the capacity changes; position and count stay |
| Islands.ToFileFormat | game/src/model/Island.java:95-98 | the island line starts with "( " and ends with " )" |
| Islands.ToFileFormatRowFirst | game/src/model/Island.java:95-98 | the line for Island(10, 5, 4) is "( 10, 5 \| 4 )", row first |
| Bridges.CanonicalSpan | game/src/model/Bridge.java:32-40 | the span's first end is no farther from the origin (row + column) than the second; the ends are the two given cells; on a tie the first argument comes first |
| Bridges.OrderedBridge | game/src/model/Bridge.java:32-40 | the new bridge joins exactly the two islands, in the canonical order of their cells, with the given weight, and is not marked latest |
| Bridges.ConstructBridge | game/src/model/Bridge.java:32-46 | the constructor orders the ends; with modifyIslandState it adds the bridge's weight to both end islands and leaves every other island alone |
| Bridges.Bridge.SetDoubleBridge | game/src/model/Bridge.java:63-66 | only the weight changes |
| Bridges.Bridge.SetModifiedLatest | game/src/model/Bridge.java:104-106 | only the latest mark changes |
| Bridges.CrossingIsSymmetric | game/src/model/Bridge.java:126-149 | areCrossingBridges does not depend on the order of its arguments |
| Bridges.SameOrientationNeverCrosses | game/src/model/Bridge.java:127-128 | two horizontal or two vertical bridges never cross |
| Bridges.CrossingCondition | game/src/model/Bridge.java:129-147 | a horizontal and a vertical bridge cross exactly when each passes strictly between the other's ends |
| Bridges.CrossingMeansSharedInnerCell | game/src/model/Bridge.java:126-149 | bridges of different orientations cross exactly when some cell lies strictly inside both |
| Bridges.CrossingCases | game/test/model/TestBridge.java:14-73 | the test cases of isHorizontal and areCrossingBridges hold |
| Bridges.ContainsComparesIdentity | game/test/model/TestBridge.java:77-92 | contains compares islands by identity: an island with the same coordinates as an end is not an end |
| Bridges.ConstructorOrderCases | game/test/model/TestBridge.java:97-110 | the constructor test: the island nearer the origin comes first, and the first argument wins a tie |
| GameModelUtils.NearestFrom | game/src/model/GameModelUtils.java:40-52 | the scan finds the nearest island strictly beyond the cell in the direction, the first in list order on a tie, or reports that there is none |
| GameModelUtils.Neighbour | game/src/model/GameModelUtils.java:40-60 | the neighbour in a direction is the nearest island beyond the cell on its row or column; there is none exactly when no island lies beyond |
| GameModelUtils.PresentNeighbours | game/src/model/GameModelUtils.java:82-83 | the present neighbours are exactly the islands that are the neighbour in some direction of the map's order |
| GameModelUtils.GetIsland | game/src/model/GameModelUtils.java:287-290 | findFirst: the first island at (row, column), or none when no island is there |
| GameModelUtils.IntervalIsClosed | game/src/model/GameModelUtils.java:304-323 | isIslandInBridgeInervall holds exactly for cells on the bridge's row (or column) between its ends, ends included |
| GameModelUtils.FilterUncrossedMembers | game/src/model/GameModelUtils.java:85-96 | the filter keeps exactly the neighbours whose bridge would cross no existing bridge |
| GameModelUtils.ReachibleNeighboursSpec | game/src/model/GameModelUtils.java:81-98 | the reachable neighbours are exactly the neighbours in some direction whose bridge crosses nothing, never the island itself, and at most one per direction |
| GameModelUtils.GetReachibleNeighbours | game/src/model/GameModelUtils.java:81-98 | the loop returns the reachable neighbours |
| GameModelUtils.BridgesOfIslandMembers | game/src/model/GameModelUtils.java:153-162 | the bridges of an island are exactly the bridges that contain it |
| GameModelUtils.GetBridgesOfIsland | game/src/model/GameModelUtils.java:153-162 | the loop returns the bridges of the island, in list order |
| GameModelUtils.GetBridgeDirectionsOfIsland | game/src/model/GameModelUtils.java:115-137 | the set holds exactly the directions in which the island has a bridge |
| GameModelUtils.ConnectedNeighboursAreAdjacent | game/src/model/GameModelUtils.java:179-189 | the connected neighbours are exactly the islands joined to the island by a bridge |
| GameModelUtils.GetConnectedNeighboursOfIsland | game/src/model/GameModelUtils.java:179-189 | the loop returns the connected neighbours |
| GameModelUtils.BridgeBetween | game/src/model/GameModelUtils.java:207-218 | the lookup finds the first bridge with both islands as ends, or reports that there is none |
| GameModelUtils.GetBridgeBetweenIslands | game/src/model/GameModelUtils.java:207-218 | the loop with its break returns that first bridge |
| GameModelUtils.IsBridgeBuildable | game/src/model/GameModelUtils.java:236-244 | true exactly when the new bridge crosses no existing bridge |
| GameModelUtils.RemoveBridge | game/src/model/GameModelUtils.java:260-272 | both ends lose one bridge; a double bridge becomes a single bridge marked latest in place, and a single bridge leaves the list |
| GameModelUtils.RemoveBridgeKeepsCounts | game/src/model/GameModelUtils.java:260-272 | when the counts matched the bridges before the removal, they match after it |
| GameModelUtils.DepthFirstSearch | game/src/model/GameModelUtils.java:340-356 | the search returns the size of the island's connected component, at least 1 |
| Rules.AddSingleBridge | game/src/model/GameModel.java:194-207 | a new single bridge is appended, marked latest, every other mark is cleared, and its ends gain one bridge each |
| Rules.UpgradeBridge | game/src/model/GameModel.java:218-230 | the bridge becomes double and latest, every other mark is cleared, and its ends gain one bridge each |
| Rules.AddSingleBridgeKeepsCounts | game/src/model/GameModel.java:194-207 | when every island's count is the number of bridges at it, adding a single bridge keeps it so |
| Rules.UpgradeBridgeKeepsCounts | game/src/model/GameModel.java:220-227 | upgrading a single bridge keeps every island's count equal to the bridges at it |
| Rules.ClearLatestKeepsValid | game/src/model/GameModel.java:195-197 | clearing every latest mark keeps the board valid and crossing-free, with no bridge marked |
| Rules.BuildBridgeBetween | game/src/model/GameModel.java:175-235 | a refused build, or a test build, leaves the board unchanged |
| Rules.RemoveBridgeBetween | game/src/model/GameModel.java:152-173 | a refused removal, or a test removal, leaves the board unchanged |
| Rules.BuildOrRemoveBridge | game/src/model/GameModel.java:122-150 | a request without an island at the cell, without a neighbour, or refused leaves the board unchanged |
| Rules.ResetCounts | game/src/model/GameModel.java:238-244 | every island keeps its place and capacity and has no bridges |
| Board.ResetCountsSpec | game/src/model/GameModel.java:239-241 | the reset sets every island's count to 0 through setCurrentNrOfBridges, island by island |
| Rules.AddSingleBridgeKeepsValid | game/src/model/GameModel.java:194-207 | a valid board stays valid, with the new bridge as the only one marked latest |
| Rules.UpgradeBridgeKeepsValid | game/src/model/GameModel.java:218-230 | a valid board stays valid, with the upgraded bridge as the only one marked latest, and no crossing appears |
| Rules.BuildKeepsValid | game/src/model/GameModel.java:175-235 | a build keeps a board valid; a real build leaves exactly one bridge marked latest |
| Rules.BuildAttachesOneBridge | game/src/model/GameModel.java:175-235 | a successful build adds one bridge to each end and nothing elsewhere, appends at most one bridge, never weakens one, and stays within both ends' capacities |
| Rules.NewBridgeNoCrossing | game/src/model/GameModel.java:184-191 | a new bridge that crosses none of the existing ones keeps the board free of crossings |
| Rules.BuildKeepsNoCrossing | game/src/model/GameModel.java:175-235 | building never makes two bridges cross |
| Rules.BuildKeepsWithinCapacity | game/src/model/GameModel.java:182-219 | building never gives an island more bridges than it needs |
| Rules.BuildKeepsPlayable | game/src/model/GameModel.java:175-235 | a valid, crossing-free board within capacities stays so |
| Rules.RemoveKeepsValid | game/src/model/GameModel.java:152-173 | a removal keeps a board valid (and playable) and never adds a bridge to any island |
| Rules.AddSingleIsFound | game/src/model/GameModel.java:178-203 | after a new bridge is added, the lookup between the two islands finds it |
| Rules.RemoveUndoesAddSingle | game/src/model/GameModel.java:152-206 | removing right after adding a single bridge restores the islands and the bridge list up to the latest marks |
| Rules.RemoveUndoesUpgrade | game/src/model/GameModel.java:152-230 | removing right after an upgrade restores the islands and the bridge list up to the latest marks |
| Rules.RemoveUndoesBuild | game/src/model/GameModel.java:152-235 | removing right after any successful build restores the islands and the bridges up to the latest marks |
| Rules.BuildOrRemoveRoundTrip | game/src/model/GameModel.java:122-150 | a successful build request followed by the remove request for the same cell and direction restores the board up to the latest marks |
| Rules.SamePlacesKeepLookups | game/src/model/GameModelUtils.java:40-60 | the lookups by cell and by direction depend only on where the islands are |
| Rules.RestartIsPlayable | game/src/model/GameModel.java:238-244 | after a restart there are no bridges and no counts, so the board is playable |
| Rules.CountFullIsAll | game/src/model/GameModel.java:249-250 | the number of islands with no capacity left is the island count exactly when every island is full |
| Rules.FullComponent | game/src/model/GameModel.java:257-258 | the search from island 0 counts all islands exactly when every island is connected to island 0 |
| Rules.SolvedMeansComplete | game/src/model/GameModel.java:247-263 | when nrOfIslands equals the number of islands: isGameSolved is true exactly when there are islands, each has its number of bridges, and all are connected; it throws exactly on an empty board |
| Rules.SolvedTestThrows | game/src/model/GameModel.java:248-263 | for any declared count: isGameSolved throws exactly when there are no islands and the count is 0; with no islands and another count it returns false |
| Rules.SolvedWithMisdeclaredCount | game/src/model/GameModel.java:247-263 | with 2 declared, three islands each needing one bridge, and the first two joined, isGameSolved returns true although the third island has no bridge |
| Solver.WithCapacityLeft | game/src/model/GameModel.java:457-460 | the filter keeps exactly the neighbours with capacity left |
| Solver.SingleBridgeRule | game/src/model/GameModel.java:466-477 | the 2n-1 rule keeps the board well formed and its islands in place |
| Solver.DoubleBridgeRule | game/src/model/GameModel.java:478-490 | the 2n rule keeps the board well formed and its islands in place |
| Solver.SolveNextBridge1 | game/src/model/GameModel.java:451-493 | one step keeps the board well formed and its islands in place |
| Solver.SolveNextBridge | game/src/model/GameModel.java:441-449 | trying the islands in order keeps the board well formed and its islands in place |
| Solver.BuildStep | game/src/model/GameModel.java:175-235 | a build takes no bridge from any island; when it succeeds an island gains one; it keeps the board valid and playable |
| Solver.SingleBridgeRuleFacts | game/src/model/GameModel.java:466-477 | the 2n-1 rule takes no bridge away, gains one when it reports success, keeps the board valid and playable, and leaves the board alone when it reports failure |
| Solver.DoubleBridgeRuleFacts | game/src/model/GameModel.java:478-490 | the same for the 2n rule (with the corrected report, a failure leaves the board alone) |
| Solver.SolveNextBridge1Facts | game/src/model/GameModel.java:451-493 | the same for one solver step on one island |
| Solver.SolveFromFacts | game/src/model/GameModel.java:442-447 | the same for the loop over the islands |
| Solver.SolveNextBridgeFacts | game/src/model/GameModel.java:441-449 | solveNextBridge never takes a bridge away, reports progress only when a bridge was gained, keeps the board valid and playable, and (corrected) reports progress exactly when the board changed |
| Generator.Stride | game/src/model/GameModel.java:396-408 | the candidate stream is the cells 2, 4, … steps away in the direction, limit of them |
| Generator.InRange | game/src/model/GameModel.java:394-409 | the range filter keeps exactly the cells short of the restriction |
| Generator.FeasibleCells | game/src/model/GameModel.java:417-434 | the loop keeps exactly the cells off every bridge whose bridge to the start would cross nothing |
| Generator.GetPossibleIslandsInDirection | game/src/model/GameModel.java:380-437 | the method returns the candidate cells in the direction |
| Generator.CandidatesAtDistanceTwo | game/src/model/GameModel.java:380-437 | with limit 1 the only candidate is the cell two steps away, when it is short of the nearest island and the border, off every bridge, and reachable without a crossing |
| Generator.CandidatesInDirection | game/src/model/GameModel.java:380-437 | every candidate lies beyond the start at an even distance between 2 and 2·limit and is feasible |
| Generator.CandidatesInBounds | game/src/model/GameModel.java:394-409 | on a board inside the grid, every candidate is inside the grid |
| Generator.CandidateIsFree | game/src/model/GameModel.java:417-434 | on a growing tree no island sits on a candidate cell |
| Generator.GrowKeepsTree | game/src/model/GameModel.java:316-327 | adding a candidate island with its bridge keeps the growing tree (straight, crossing-free, distinct cells, inside the grid), on a free cell of the grid |
| Generator.GrowShape | game/src/model/GameModel.java:316-327 | growing appends an island at the cell with capacity 8 and one bridge from the chosen island to it, the only one marked latest, and leaves every earlier island's place and capacity and every earlier bridge's span alone |
| Generator.GrowKeepsValid | game/src/model/GameModel.java:316-327 | growing keeps a board valid |
| Generator.GetFeasibeDirectionIslandMap | game/src/model/GameModel.java:355-378 | the map holds exactly the directions without a bridge that have candidates, each with its candidates |
| Generator.Shuffle | game/src/model/GameModel.java:290-292 | the shuffled traversal is a permutation of 0 .. n - 1 |
| Generator.ClearMarks | game/src/model/GameModel.java:324-326 | every bridge loses its latest mark and nothing else |
| Generator.AddIsland | game/src/model/GameModel.java:316-327 | a successful round adds the island and its bridge as Grow describes |
| Generator.GrowRound | game/src/model/GameModel.java:293-333 | a round keeps the growing tree; success adds one island on a free cell; failure changes nothing and means no island has a feasible direction |
| Generator.GrowTree | game/src/model/GameModel.java:267-335 | the loop ends with a growing tree; success means the requested number of islands, failure that no island can grow |
| Generator.Freeze | game/src/model/GameModel.java:336-340 | every island's capacity becomes its count of bridges, and the count becomes 0 |
| Generator.Full | game/src/model/GameModel.java:337-340 | each island's capacity becomes its count of bridges |
| Generator.FreezeCapacities | game/src/model/GameModel.java:337-340 | the loop freezes the capacities |
| Generator.TreeIsConnected | game/src/model/GameModel.java:318-327 | each island of the tree is connected to the first island |
| Generator.TreeSolvesFull | game/src/model/GameModel.java:336-340 | the tree's bridges solve the board whose capacities are the tree's counts |
| Generator.FreezeIsRestart | game/src/model/GameModel.java:336-345 | the frozen islands without bridges are that solution after a restart |
| Generator.GeneratedGameIsSolvable | game/src/model/GameModel.java:266-353 | a generated game has a playable solution that restarts to it |
| GameModelIO.FilterLinesSpec | game/src/model/GameModelIO.java:55-60 | the filtered lines are exactly the lines that are neither empty nor comments |
| GameModelIO.FilteredLines | game/src/model/GameModelIO.java:55-60 | the loop returns the filtered lines |
| GameModelIO.ParseFieldDefinition | game/src/model/GameModelIO.java:94-111 | a field line that parses holds a '\|', and its three numbers are ints |
| GameModelIO.ParseIslandDefinition | game/src/model/GameModelIO.java:113-132 | an island line that parses is in parentheses, gives an island without bridges, and its numbers are ints |
| GameModelIO.ParseBridgeDefinition | game/src/model/GameModelIO.java:134-154 | a bridge line that parses names two islands of the list, and the constructor joins them and attaches the bridge to both |
| GameModelIO.BridgeDefinitionIsRelation | game/src/model/GameModelIO.java:134-154 | whether a bridge line parses, and the bridge it gives, depend only on the lines and where the islands are, not on their counts |
| GameModelIO.CollectAllSpec | game/src/model/GameModelIO.java:82-88 | a loop of parses succeeds exactly when every line parses, and then yields each line's value |
| GameModelIO.ParseBridges | game/src/model/GameModelIO.java:85-89 | the loaded bridges join islands of the list, none is marked latest, and each is in canonical order |
| GameModelIO.ParseBridgesFailsOnward | game/src/model/GameModelIO.java:85-89 | once a bridge line fails, the load fails |
| GameModelIO.AttachAll | game/src/model/GameModelIO.java:149 | each island gains the bridges attached to it, its place and capacity unchanged |
| GameModelIO.Load | game/src/model/GameModelIO.java:53-92 | a file that loads has FIELD first, ISLANDS third, BRIDGES (if any) after the first island, int dimensions, and gives a valid board in canonical order with no bridge marked latest |
| GameModelIO.LoadedSections | game/src/model/GameModelIO.java:62-80 | when the section markers are accepted, FIELD is the first line, ISLANDS the third and not earlier, and BRIDGES is none of the first four lines |
| GameModelIO.LoadedIsBoard | game/src/model/GameModelIO.java:53-92 | the loaded board is well formed, its counts match its bridges, and its bridges are in canonical order |
| GameModelIO.ReadIslands | game/src/model/GameModelIO.java:82-84 | the loop over the island lines stops at the first error like the function |
| GameModelIO.ReadBridges | game/src/model/GameModelIO.java:85-89 | the loop over the bridge lines, which updates the island counts, gives the bridges and the counts the function computes |
| GameModelIO.LoadGame | game/src/model/GameModelIO.java:53-92 | the method returns what Load computes |
| GameModelIO.Insert | game/src/model/GameModelIO.java:173-175 | inserting a position adds exactly that position |
| GameModelIO.SortPrefixIsPermutation | game/src/model/GameModelIO.java:173-175 | sorting the first m positions gives a permutation of them |
| GameModelIO.SortPrefixIsSorted | game/src/model/GameModelIO.java:173-175 | sorting the first m positions gives them sorted by key, equal keys in position order |
| GameModelIO.SortedOrderSpec | game/src/model/GameModelIO.java:173-175 | the stable sort lists each position once, sorted by key and, on equal keys, by position |
| GameModelIO.GetSmallerBridgeIndex | game/src/model/GameModelIO.java:197-201 | the smaller of the ends' positions in the sorted list |
| GameModelIO.GetBiggerBridgeIndex | game/src/model/GameModelIO.java:203-207 | the bigger of the ends' positions in the sorted list |
| GameModelIO.SmallerAndBiggerAreTheEnds | game/src/model/GameModelIO.java:197-207 | the smaller and bigger index are the two ends' positions, in order |
| GameModelIO.ToFileFormat | game/src/model/GameModelIO.java:164-195 | the writer's appends produce the file text |
| GameModelIO.AppendIslands | game/src/model/GameModelIO.java:177-179 | the loop appends each sorted island's line and a line break |
| GameModelIO.AppendBridges | game/src/model/GameModelIO.java:186-191 | the loop appends each sorted bridge's entry and the separator |
| JavaStrings.IndexOf | game/src/model/GameModelIO.java:62-71 | List.indexOf: the first position of the element, or -1 exactly when it is absent |
| JavaStrings.ParseIntOfIntToString | game/src/model/GameModelIO.java:98-102 | Integer.parseInt reads back every int String.format("%d") writes |
| JavaStrings.SplitTwo | game/src/model/GameModelIO.java:97-100 | split at a separator of a text with one separator gives the two pieces |
| RoundTrip.FieldLineRoundTrip | game/src/model/GameModelIO.java:94-111 | the field line written reads back as the three numbers |
| RoundTrip.TwoIntsRoundTrip | game/src/model/GameModelIO.java:97-102 | two ints written around a separator, with any spaces, read back as the two ints |
| RoundTrip.IslandLineRoundTrip | game/src/model/GameModelIO.java:113-132 | an island line written reads back as the island, without bridges |
| RoundTrip.EntryRoundTrip | game/src/model/GameModelIO.java:134-154 | a bridge entry written reads back as the two indices and the weight |
| RoundTrip.ParseBooleanOfBoolToString | game/src/model/GameModelIO.java:143 | Boolean.parseBoolean reads back what String.valueOf writes |
| RoundTrip.FilterSkips | game/src/model/GameModelIO.java:56-60 | the filter drops an empty or comment line wherever it stands |
| RoundTrip.LoadIgnoresBlankAndComment | game/src/model/GameModelIO.java:56-60 | adding an empty or a comment line anywhere does not change the load |
| RoundTrip.LinesPerLine | game/src/model/GameModelIO.java:164-195 | with one entry per line, the text's lines are the header, the island lines, a blank, the marker and the entries |
| RoundTrip.LoadSections | game/src/model/GameModelIO.java:62-89 | filtered lines FIELD, a field line, ISLANDS, island lines, BRIDGES and bridge lines that each parse load as the field, the islands with the bridges attached, and the bridges |
| RoundTrip.LoadFailsAfterIslands | game/src/model/GameModelIO.java:82-118 | a last line after the islands that is not BRIDGES and not in parentheses makes the load fail |
| RoundTrip.SameLinesWithoutBridges | game/src/model/GameModelIO.java:184-191 | without bridges the two layouts give the same lines |
| RoundTrip.ParseWrittenIslands | game/src/model/GameModelIO.java:113-179 | the written island lines parse as the sorted islands without bridges |
| RoundTrip.ParseWrittenEntries | game/src/model/GameModelIO.java:134-191 | the written entries parse, over those islands, as the sorted bridges |
| RoundTrip.ReloadedIslandsAreSaved | game/src/model/GameModelIO.java:173-179 | the reloaded islands are the saved ones in sorted order, with their counts rebuilt from the reloaded bridges |
| RoundTrip.ReloadedBridgesAreSaved | game/src/model/GameModelIO.java:180-191 | the reloaded bridges are the saved ones in sorted order, with the same ends and weights |
| RoundTrip.ReloadedGameIsSaved | game/src/model/GameModelIO.java:173-191 | the reloaded board has the saved dimensions, the saved islands in sorted order with their counts rebuilt from the bridges, and the saved bridges in sorted order with the same ends and weights |
| RoundTrip.SavedGameReloads | game/src/model/GameModelIO.java:53-195 | a board with islands, written one entry per line, loads back as that reloaded board |
| RoundTrip.LoadKeepsDeclaredCount | game/src/model/GameModelIO.java:98-104 | a saved board loads with the island count of its field line and all of its island lines, whether or not the two agree |
| RoundTrip.SavedWithoutBridgesReloads | game/src/model/GameModelIO.java:53-195 | a board without bridges, written as the code writes it, loads back |
| RoundTrip.SavedBridgesDoNotReload | game/src/model/GameModelIO.java:184-191 | as written, a board with a bridge saves to a text that fails to load |
| SolverFindings.RuleCMisreports | game/src/model/GameModel.java:482-483 | as written, one step of solveNextBridge on the L-shaped board adds a bridge yet reports false |
| SolverFindings.RuleCCorrected | game/src/model/GameModel.java:478-490 | with the report taken from either build, the same step reports true and leaves the board with exactly the added bridge |
| Board.GameModel.constructor | game/src/model/GameModel.java:35-40 | a new board has no dimensions, islands or bridges |
| Board.GameModel.LoadGame | game/src/model/GameModel.java:100-110 | success exactly when the file loads; the board becomes the loaded one and is valid; on a format error it is unchanged |
| Board.GameModel.ToFileFormat | game/src/model/GameModel.java:112-115 | the text is the file text of the board as written, with the marker and the entries on one line |
| Board.GameModel.BuildOrRemoveBridge | game/src/model/GameModel.java:118-120 | the request changes the board as the rules say |
| Board.GameModel.BuildOrRemoveBridgeWith | game/src/model/GameModel.java:122-150 | the lookups and the build or removal change the board as the rules say |
| Board.GameModel.RemoveBridgeBetweenIslands | game/src/model/GameModel.java:152-173 | the board after the removal is the one the rules give |
| Board.GameModel.BuildBridgeBetweenIslands | game/src/model/GameModel.java:175-235 | the board after the build is the one the rules give |
| Board.GameModel.RestartGame | game/src/model/GameModel.java:238-244 | the board is restarted: no bridges, no counts, the dimensions unchanged |
| Board.GameModel.IsGameSolved | game/src/model/GameModel.java:247-263 | the result is the solved test of the rules |
| Board.GameModel.SolveNextBridge | game/src/model/GameModel.java:441-449 | the result and the board after one solver step are the ones Solver gives for the rule as written |
| Board.GameModel.SolveNextBridge1 | game/src/model/GameModel.java:451-493 | the result and the board after the step on one island are the ones Solver gives for the rule as written |
| Board.GameModel.TrySingleBridges | game/src/model/GameModel.java:466-477 | the loop of the 2n-1 rule ends in the state the rule gives |
| Board.GameModel.TryDoubleBridges | game/src/model/GameModel.java:478-490 | the loop of the 2n rule, which overwrites the first build's result with the second's and goes on to the next neighbour unless the second succeeded, ends in the state and result the rule as written gives |
| Board.GameModel.CreateNewGame | game/src/model/GameModel.java:266-353 | on success the board has the requested size and islands, no bridges, and a solution; on failure it is unchanged |

## Left out

- Observers (`registerObserver`, `updateGameOservers`), the getters and setters, and the `GameModelnterface` interface: they notify or expose state and compute nothing.
- `System.out.println` in `createNewGame` is output only.
- Reading and writing files: the file's lines are a parameter of `LoadGame`. `RoundTrip.ReadLines` splits the text at `'\n'` only, the way a reader returns the lines of this writer's output.
- Randomness: `ThreadLocalRandom` and `Collections.shuffle` become nondeterministic choices (`:|`). The properties hold for every choice.
- The iteration order of the neighbour `HashMap` is not fixed. It is the parameter `neighbourOrder`, and the properties hold for every order.
- Aliasing: Java islands are shared objects that bridges point to. Here bridges hold list positions, and a setter writes a new island value back into the list.
- The `Stream.sorted` calls of `toFileFormat` become an insertion sort that is stable by position, as the Java sort is.
- `JavaStrings.ParseInt` accepts ASCII digits only, where `Integer.parseInt` also accepts other Unicode digits.
- Island.toFileFormat writes the row before the column (`Islands.ToFileFormatRowFirst`). The parser reads the same order, so the round trip holds. The format comment at game/src/model/GameModelIO.java:23 and game/test/model/TestIsland.java:11 expect column first; the model follows the code.
- GameModelUtils.GetReachibleNeighbours: its inner loop over the bridges is the loop of `isBridgeBuildable`, so it calls `GameModelUtils.IsBridgeBuildable` rather than repeating it.
- Board.GameModel.CreateNewGame: requires `nrOfRows > 0 && nrOfColumns > 0`, because `nextInt(0, 0)` throws there and the exception is not modelled.
- RoundTrip.SavedGameReloads: requires every saved number to be an int, every bridge to join islands of the board, and at least one island. With no islands the marker BRIDGES is the fourth content line, which `loadGame` rejects.
- Rules.IsGameSolved is a ghost function, because connectivity is quantified over walks. `Board.GameModel.IsGameSolved` computes it with `DepthFirstSearch`.
- The controller (game/src/view/GameController.java) trims each line it reads and drops empty and '#' lines before it calls loadGame. That trimming is not modelled: `LoadGame` receives the lines as given. The writer's lines have no leading or trailing blanks, so the round trip does not depend on it. saveGame writes the toFileFormat text unchanged.
- Rules.SolvedMeansComplete: the equivalence is stated for a declared island count equal to the number of islands, because loadGame takes the count from the field line without comparing it (`RoundTrip.LoadKeepsDeclaredCount`), and with another count it does not hold (`Rules.SolvedWithMisdeclaredCount`).

## Findings

| source | as written | input that shows it | evidently intended | confidence | as-written member | corrected member |
|---|---|---|---|---|---|---|
| game/src/model/GameModel.java:482-483 | the 2n rule builds twice and keeps only the second result in `bridgeAdded`, so a step whose first build succeeds and whose second is refused reports false | islands (0,0) needing 4, (0,2) and (2,0) needing 1 each, no bridges: the first build to (0,2) succeeds and the upgrade is refused; the step moves on to (2,0) and does the same; `solveNextBridge` returns false with two new bridges | report true when either build added a bridge, as GameModelnterface.java says of solveNextBridge | not executed | SolverFindings.RuleCMisreports | SolverFindings.RuleCCorrected |
| game/src/model/GameModelIO.java:184-191 | the marker BRIDGES and every entry are appended without line breaks, so they form one line | any board with at least one bridge: the last line `BRIDGES( 0 , 1 \| false)` is neither the marker nor an island line, so the load fails | one line per entry after the marker, the format `loadGame` reads | not executed | RoundTrip.SavedBridgesDoNotReload | RoundTrip.SavedGameReloads |
