/** The bgs text format of a board (GameModelIO.java): a line-based parser
    with FIELD, ISLANDS and BRIDGES sections that fails with a format error,
    and the serialiser. */
module GameModelIO {
  import opened Wrappers
  import opened JavaStrings
  import opened Islands
  import opened Bridges
  import opened GameModelUtils
  import opened Rules

  /** The part of a board the file holds: its dimensions, the island count
      as the field line states it, and the two lists. */
  datatype GameData = GameData(nrOfRows: int, nrOfColumns: int, nrOfIslands: int,
                               islands: seq<Island>, bridges: seq<Bridge>)

  /** The three numbers of the field line. */
  datatype Field = Field(nrOfRows: int, nrOfColumns: int, nrOfIslands: int)

  function FormatError<T>(): Result<T> {
    Err(GameFileFormatError)
  }

  // ----- reading -----

  /** A line that is neither empty nor a comment. */
  predicate IsContentLine(line: string) {
    !(|line| == 0 || StartsWith(line, "#"))
  }

  /** The lines loadGame keeps, in their order. */
  function FilterLines(lines: seq<string>): (r: seq<string>)
    ensures |r| <= |lines|
  {
    if lines == [] then []
    else
      var last := lines[|lines| - 1];
      FilterLines(lines[..|lines| - 1]) + if IsContentLine(last) then [last] else []
  }

  /** The kept lines are exactly the content lines. */
  lemma {:induction false} FilterLinesSpec(lines: seq<string>)
    ensures forall x :: x in FilterLines(lines) <==> x in lines && IsContentLine(x)
  {
    if lines != [] {
      var init := lines[..|lines| - 1];
      FilterLinesSpec(init);
      assert lines == init + [lines[|lines| - 1]];
    }
  }

  /** The loop of loadGame that drops the empty and the comment lines. */
  method FilteredLines(fileLines: seq<string>) returns (filteredLines: seq<string>)
    ensures filteredLines == FilterLines(fileLines)
  {
    filteredLines := [];
    for i := 0 to |fileLines|
      invariant filteredLines == FilterLines(fileLines[..i])
    {
      assert fileLines[..i + 1][..i] == fileLines[..i];
      var line := fileLines[i];
      if !(|line| == 0 || StartsWith(line, "#")) {
        filteredLines := filteredLines + [line];
      }
    }
    assert fileLines[..|fileLines|] == fileLines;
  }

  /** The two numbers before and after the first occurrence of c, as
      parseInt(spl[0].trim()) and parseInt(spl[1].trim()) read them from
      spl = s.split(c); None when a piece is missing or is not a number. */
  function ParseTwoInts(s: string, c: char): (r: Option<(int, int)>)
    ensures r.Some? ==> c in s && IsInt32(r.value.0) && IsInt32(r.value.1)
  {
    var spl := Split(s, c);
    if |spl| < 2 then None
    else match (ParseInt(Trim(spl[0])), ParseInt(Trim(spl[1])))
      case (Some(a), Some(b)) => Some((a, b))
      case _ => None
  }

  /** parseFieldDefinition: "rows x columns | islands". */
  function ParseFieldDefinition(fieldString: string): (r: Result<Field>)
    ensures r.Ok? ==> '|' in fieldString
    ensures r.Ok? ==> IsInt32(r.value.nrOfRows) && IsInt32(r.value.nrOfColumns) && IsInt32(r.value.nrOfIslands)
  {
    var spl1 := Split(fieldString, '|');
    if |spl1| < 2 then FormatError()
    else match ParseInt(Trim(spl1[1]))
      case None => FormatError()
      case Some(nrIslands) =>
        match ParseTwoInts(spl1[0], 'x')
        case None => FormatError()
        case Some((nrRows, nrColumns)) => Ok(Field(nrRows, nrColumns, nrIslands))
  }

  /** fieldString.substring(1, fieldString.length() - 1): the text between the
      first and the last character; None for the exception a string shorter
      than two characters raises. */
  function Inner(s: string): (r: Option<string>)
    ensures r.Some? <==> |s| >= 2
    ensures r.Some? ==> s == [s[0]] + r.value + [s[|s| - 1]]
  {
    if |s| < 2 then None else Some(s[1..|s| - 1])
  }

  /** parseIslandDefinition: "( row, column | capacity )" becomes a new island. */
  function ParseIslandDefinition(fieldString: string): (r: Result<Island>)
    ensures r.Ok? ==> StartsWith(fieldString, "(") && EndsWith(fieldString, ")")
    ensures r.Ok? ==> r.value.currentNrOfBridges == 0
    ensures r.Ok? ==> IsInt32(r.value.row) && IsInt32(r.value.column) && IsInt32(r.value.bridgeCapacity)
  {
    if !(StartsWith(fieldString, "(") && EndsWith(fieldString, ")")) then FormatError()
    else match Inner(fieldString)
      case None => FormatError()
      case Some(content) =>
        var spl1 := Split(content, '|');
        if |spl1| < 2 then FormatError()
        else match ParseInt(Trim(spl1[1]))
          case None => FormatError()
          case Some(nrBridges) =>
            match ParseTwoInts(spl1[0], ',')
            case None => FormatError()
            case Some((row, column)) => Ok(NewIsland(row, column, nrBridges))
  }

  /** The content of a bridge line: the two island indices in the order
      written and the double flag. */
  datatype BridgeEntry = BridgeEntry(index1: int, index2: int, isDoubleBridge: bool)

  /** The split and parse steps of parseBridgeDefinition, before the islands
      are looked up. The check for the parentheses has an empty body: the
      first and the last character are dropped whatever they are. The double
      flag is Boolean.parseBoolean of the trimmed text after the bar. */
  function ParseBridgeEntry(fieldString: string): (r: Result<BridgeEntry>)
    ensures r.Ok? ==> IsInt32(r.value.index1) && IsInt32(r.value.index2)
  {
    match Inner(fieldString)
    case None => FormatError()
    case Some(content) =>
      var spl1 := Split(content, '|');
      if |spl1| < 2 then FormatError()
      else
        var isDoubleBridge := ParseBoolean(Trim(spl1[1]));
        match ParseTwoInts(spl1[0], ',')
        case None => FormatError()
        case Some((i, j)) => Ok(BridgeEntry(i, j, isDoubleBridge))
  }

  /** parseBridgeDefinition: the bridge between the islands at the two
      indices, built with new Bridge(..., true), so that it attaches its
      weight to both islands; an index outside the island list is the
      exception islands.get raises. */
  function ParseBridgeDefinition(fieldString: string, islands: seq<Island>): (r: Result<(Bridge, seq<Island>)>)
    ensures r.Ok? ==> ParseBridgeEntry(fieldString).Ok?
    ensures r.Ok? ==> var e := ParseBridgeEntry(fieldString).value;
              0 <= e.index1 < |islands| && 0 <= e.index2 < |islands|
              && r.value == ConstructBridge(islands, e.index1, e.index2, e.isDoubleBridge, true)
  {
    match ParseBridgeEntry(fieldString)
    case Err(e) => Err(e)
    case Ok(BridgeEntry(i, j, isDoubleBridge)) =>
      if !(0 <= i < |islands| && 0 <= j < |islands|) then FormatError()
      else Ok(ConstructBridge(islands, i, j, isDoubleBridge, true))
  }

  /** The bridge a bridge line describes, leaving the counts aside. */
  function BridgeRelation(fieldString: string, islands: seq<Island>): (r: Result<Bridge>)
    ensures r.Ok? ==> EndsIn(r.value, |islands|) && !r.value.modifiedLatest
    ensures r.Ok? ==> Manhattan(islands[r.value.island1].Position()) <= Manhattan(islands[r.value.island2].Position())
  {
    match ParseBridgeEntry(fieldString)
    case Err(e) => Err(e)
    case Ok(BridgeEntry(i, j, isDoubleBridge)) =>
      if !(0 <= i < |islands| && 0 <= j < |islands|) then FormatError()
      else Ok(OrderedBridge(islands, i, j, isDoubleBridge))
  }

  /** parseBridgeDefinition is the bridge relation with the constructor's side effect on the counts. */
  lemma BridgeDefinitionIsRelation(fieldString: string, islands: seq<Island>, current: seq<Island>)
    requires SamePlaces(islands, current)
    ensures ParseBridgeDefinition(fieldString, current).Ok? == BridgeRelation(fieldString, islands).Ok?
    ensures ParseBridgeDefinition(fieldString, current).Ok? ==>
              ParseBridgeDefinition(fieldString, current).value.0 == BridgeRelation(fieldString, islands).value
  {
  }

  /** The results of a loop over lines that stops at the first exception:
      the values of all of them, or the first error. */
  function CollectAll<X>(rs: seq<Result<X>>): (r: Result<seq<X>>)
    ensures r.Ok? ==> |r.value| == |rs|
  {
    if rs == [] then Ok([])
    else match CollectAll(rs[..|rs| - 1])
      case Err(e) => Err(e)
      case Ok(xs) =>
        match rs[|rs| - 1]
        case Err(e) => Err(e)
        case Ok(x) => Ok(xs + [x])
  }

  /** The loop succeeds exactly when every step does, and then it has the
      value of every step, in order. */
  lemma {:induction false} CollectAllSpec<X>(rs: seq<Result<X>>)
    ensures CollectAll(rs).Ok? <==> forall k :: 0 <= k < |rs| ==> rs[k].Ok?
    ensures CollectAll(rs).Ok? ==> forall k :: 0 <= k < |rs| ==> rs[k] == Ok(CollectAll(rs).value[k])
  {
    if rs != [] {
      var prefix := rs[..|rs| - 1];
      CollectAllSpec(prefix);
      assert forall k :: 0 <= k < |prefix| ==> prefix[k] == rs[k];
    }
  }

  function IslandResults(lines: seq<string>): (r: seq<Result<Island>>)
    ensures |r| == |lines| && forall k :: 0 <= k < |lines| ==> r[k] == ParseIslandDefinition(lines[k])
  {
    seq(|lines|, k requires 0 <= k < |lines| => ParseIslandDefinition(lines[k]))
  }

  /** The island lines parsed one after the other. */
  function ParseIslands(lines: seq<string>): (r: Result<seq<Island>>)
    ensures r.Ok? ==> |r.value| == |lines|
  {
    CollectAll(IslandResults(lines))
  }

  /** The bridges the bridge lines describe; the first malformed line ends the load. */
  function ParseBridges(lines: seq<string>, islands: seq<Island>): (r: Result<seq<Bridge>>)
    ensures r.Ok? ==> |r.value| == |lines| && AllEndsIn(r.value, |islands|)
    ensures r.Ok? ==> forall j :: 0 <= j < |r.value| ==> !r.value[j].modifiedLatest
    ensures r.Ok? ==> forall j :: 0 <= j < |r.value| ==>
              Manhattan(islands[r.value[j].island1].Position()) <= Manhattan(islands[r.value[j].island2].Position())
  {
    if lines == [] then Ok([])
    else
      match ParseBridges(lines[..|lines| - 1], islands)
      case Err(e) => Err(e)
      case Ok(bridges) =>
        match BridgeRelation(lines[|lines| - 1], islands)
        case Err(e) => Err(e)
        case Ok(bridge) => AppendLoadedBridge(bridges, bridge, islands); Ok(bridges + [bridge])
  }

  /** The facts ParseBridges states of its bridges survive appending one more bridge that has them. */
  lemma AppendLoadedBridge(bridges: seq<Bridge>, b: Bridge, islands: seq<Island>)
    requires AllEndsIn(bridges, |islands|) && forall j :: 0 <= j < |bridges| ==> !bridges[j].modifiedLatest
    requires forall j :: 0 <= j < |bridges| ==>
               Manhattan(islands[bridges[j].island1].Position()) <= Manhattan(islands[bridges[j].island2].Position())
    requires EndsIn(b, |islands|) && !b.modifiedLatest
    requires Manhattan(islands[b.island1].Position()) <= Manhattan(islands[b.island2].Position())
    ensures var r := bridges + [b];
            && AllEndsIn(r, |islands|) && (forall j :: 0 <= j < |r| ==> !r[j].modifiedLatest)
            && forall j :: 0 <= j < |r| ==>
                 Manhattan(islands[r[j].island1].Position()) <= Manhattan(islands[r[j].island2].Position())
  {
  }

  /** A bridge line that does not parse fails the lines after it too. */
  lemma {:induction false} ParseBridgesFailsOnward(lines: seq<string>, islands: seq<Island>, i: nat)
    requires i <= |lines| && ParseBridges(lines[..i], islands).Err?
    ensures ParseBridges(lines, islands).Err?
    decreases |lines| - i
  {
    if i < |lines| {
      assert lines[..i + 1][..i] == lines[..i];
      ParseBridgesFailsOnward(lines, islands, i + 1);
    } else {
      assert lines[..i] == lines;
    }
  }

  /** The islands with the bridges attached: what the Bridge constructors'
      side effects leave behind. */
  function AttachAll(islands: seq<Island>, bridges: seq<Bridge>): (r: seq<Island>)
    ensures SamePlaces(islands, r)
    ensures forall k :: 0 <= k < |islands| ==>
              r[k].currentNrOfBridges == islands[k].currentNrOfBridges + Degree(bridges, k)
  {
    seq(|islands|, k requires 0 <= k < |islands| =>
      islands[k].SetCurrentNrOfBridges(islands[k].currentNrOfBridges + Degree(bridges, k)))
  }

  /** The bridges loaded from the bridge lines, and the islands they leave behind. */
  function LoadBridges(lines: seq<string>, islands: seq<Island>): (r: Result<(seq<Bridge>, seq<Island>)>)
  {
    match ParseBridges(lines, islands)
    case Err(e) => Err(e)
    case Ok(bridges) => Ok((bridges, AttachAll(islands, bridges)))
  }

  /** The positions of the ISLANDS section within the kept lines, or None
      when the section markers are out of place: FIELD must come first,
      ISLANDS third, and a BRIDGES line, when there is one, after at least
      one island line. */
  function IslandSection(filtered: seq<string>): (r: Option<(nat, nat)>)
    ensures r.Some? ==> 3 <= r.value.0 <= r.value.1 <= |filtered|
  {
    if IndexOf(filtered, "FIELD") != 0 then None
    else if IndexOf(filtered, "ISLANDS") != 2 then None
    else
      var indexBridges := IndexOf(filtered, "BRIDGES");
      if indexBridges == -1 then Some((3, |filtered|))
      else if indexBridges > 3 then Some((3, indexBridges))
      else None
  }

  /** The lines after the island lines: those after BRIDGES, when there is one. */
  function BridgeLines(filtered: seq<string>, islandDefinitionEnd: nat): seq<string>
    requires islandDefinitionEnd <= |filtered|
  {
    if islandDefinitionEnd < |filtered| then filtered[islandDefinitionEnd + 1..] else []
  }

  /** loadGame on the lines that survive the filter. */
  function LoadFiltered(filtered: seq<string>): (r: Result<GameData>)
  {
    match IslandSection(filtered)
    case None => FormatError()
    case Some((_, islandDefinitionEnd)) =>
      match ParseFieldDefinition(filtered[1])
      case Err(e) => Err(e)
      case Ok(field) =>
        match ParseIslands(filtered[3..islandDefinitionEnd])
        case Err(e) => Err(e)
        case Ok(islands) =>
          match LoadBridges(BridgeLines(filtered, islandDefinitionEnd), islands)
          case Err(e) => Err(e)
          case Ok((bridges, loaded)) =>
            Ok(GameData(field.nrOfRows, field.nrOfColumns, field.nrOfIslands, loaded, bridges))
  }

  /** loadGame: the board a bgs file describes, or the format error. */
  function Load(fileLines: seq<string>): (r: Result<GameData>)
    ensures r.Ok? ==> var f := FilterLines(fileLines);
              |f| >= 3 && f[0] == "FIELD" && f[2] == "ISLANDS" && "ISLANDS" !in f[..2]
              && forall i :: 0 <= i <= 3 && i < |f| ==> f[i] != "BRIDGES"
    ensures r.Ok? ==> IsInt32(r.value.nrOfRows) && IsInt32(r.value.nrOfColumns) && IsInt32(r.value.nrOfIslands)
    ensures r.Ok? ==> var s := State(r.value.islands, r.value.bridges);
              WellFormed(s) && CountsMatch(s) && CanonicalOrder(s) && OnlyLatest(s.bridges, |s.bridges|)
  {
    var r := LoadFiltered(FilterLines(fileLines));
    if r.Ok? then
      LoadedSections(FilterLines(fileLines));
      LoadedIsBoard(FilterLines(fileLines));
      r
    else r
  }

  /** Where the section markers of a loadable file stand. */
  lemma LoadedSections(filtered: seq<string>)
    requires IslandSection(filtered).Some?
    ensures |filtered| >= 3 && filtered[0] == "FIELD" && filtered[2] == "ISLANDS" && "ISLANDS" !in filtered[..2]
    ensures forall i :: 0 <= i <= 3 && i < |filtered| ==> filtered[i] != "BRIDGES"
  {
  }

  /** What the parser guarantees about a board it loads. */
  lemma LoadedIsBoard(filtered: seq<string>)
    requires LoadFiltered(filtered).Ok?
    ensures var g := LoadFiltered(filtered).value; var s := State(g.islands, g.bridges);
              IsInt32(g.nrOfRows) && IsInt32(g.nrOfColumns) && IsInt32(g.nrOfIslands)
              && WellFormed(s) && CountsMatch(s) && CanonicalOrder(s) && OnlyLatest(s.bridges, |s.bridges|)
  {
    var end := IslandSection(filtered).value.1;
    var lines := filtered[3..end];
    var islands := ParseIslands(lines).value;
    UnattachedIslands(lines);
    var bridges := ParseBridges(BridgeLines(filtered, end), islands).value;
    assert LoadFiltered(filtered).value.islands == AttachAll(islands, bridges);
    assert LoadFiltered(filtered).value.bridges == bridges;
  }

  /** Loaded islands have no bridge attached yet. */
  lemma UnattachedIslands(lines: seq<string>)
    requires ParseIslands(lines).Ok?
    ensures forall k :: 0 <= k < |lines| ==> ParseIslands(lines).value[k].currentNrOfBridges == 0
  {
    var islands := ParseIslands(lines).value;
    CollectAllSpec(IslandResults(lines));
    forall k | 0 <= k < |islands|
      ensures islands[k].currentNrOfBridges == 0
    {
      assert ParseIslandDefinition(lines[k]) == Ok(islands[k]);
    }
  }

  // ----- the loops of loadGame -----

  /** The loop over the island lines. */
  method ReadIslands(lines: seq<string>) returns (r: Result<seq<Island>>)
    ensures r == ParseIslands(lines)
  {
    var islands: seq<Island> := [];
    for i := 0 to |lines|
      invariant ParseIslands(lines[..i]) == Ok(islands)
    {
      assert IslandResults(lines[..i + 1])[..i] == IslandResults(lines[..i]);
      var island := ParseIslandDefinition(lines[i]);
      if island.Err? {
        CollectAllSpec(IslandResults(lines));
        assert IslandResults(lines)[i] == island;
        return FormatError();
      }
      islands := islands + [island.value];
    }
    assert lines[..|lines|] == lines;
    return Ok(islands);
  }

  /** One more bridge line that parses against the islands as the earlier
      lines left them extends the loaded bridges by its bridge ... */
  lemma BridgeStepParses(lines: seq<string>, islands: seq<Island>, i: nat, bridges: seq<Bridge>, current: seq<Island>)
    requires i < |lines| && ParseBridges(lines[..i], islands) == Ok(bridges)
    requires current == AttachAll(islands, bridges)
    requires ParseBridgeDefinition(lines[i], current).Ok?
    ensures ParseBridges(lines[..i + 1], islands) == Ok(bridges + [ParseBridgeDefinition(lines[i], current).value.0])
  {
    BridgeDefinitionIsRelation(lines[i], islands, current);
    ParseOneMore(lines, islands, i, bridges, ParseBridgeDefinition(lines[i], current).value.0);
  }

  /** ... and attaches it to the islands. */
  lemma BridgeStepAttaches(line: string, islands: seq<Island>, bridges: seq<Bridge>, current: seq<Island>)
    requires current == AttachAll(islands, bridges)
    requires ParseBridgeDefinition(line, current).Ok?
    ensures var p := ParseBridgeDefinition(line, current).value;
            p.1 == AttachAll(islands, bridges + [p.0])
  {
    var p := ParseBridgeDefinition(line, current).value;
    AttachOneMore(islands, bridges, p.0, p.1);
  }

  lemma ParseOneMore(lines: seq<string>, islands: seq<Island>, i: nat, bridges: seq<Bridge>, bridge: Bridge)
    requires i < |lines| && ParseBridges(lines[..i], islands) == Ok(bridges)
    requires BridgeRelation(lines[i], islands) == Ok(bridge)
    ensures ParseBridges(lines[..i + 1], islands) == Ok(bridges + [bridge])
  {
    assert lines[..i + 1][..i] == lines[..i];
  }

  /** Attaching one more bridge to the islands as the earlier bridges left them. */
  lemma AttachOneMore(islands: seq<Island>, bridges: seq<Bridge>, bridge: Bridge, after: seq<Island>)
    requires |after| == |islands|
    requires forall k :: 0 <= k < |islands| ==>
               after[k] == AttachAll(islands, bridges)[k].SetCurrentNrOfBridges(
                             AttachAll(islands, bridges)[k].currentNrOfBridges + bridge.Attached(k))
    ensures after == AttachAll(islands, bridges + [bridge])
  {
    forall k | 0 <= k < |islands| ensures after[k] == AttachAll(islands, bridges + [bridge])[k] {
      DegreeOfAppend(bridges, bridge, k);
    }
  }

  /** A bridge line that does not parse fails the whole load. */
  lemma BridgeStepFails(lines: seq<string>, islands: seq<Island>, i: nat, bridges: seq<Bridge>)
    requires i < |lines| && ParseBridges(lines[..i], islands) == Ok(bridges)
    requires ParseBridgeDefinition(lines[i], AttachAll(islands, bridges)).Err?
    ensures ParseBridges(lines, islands).Err?
  {
    BridgeDefinitionIsRelation(lines[i], islands, AttachAll(islands, bridges));
    ParseFailsAt(lines, islands, i);
    ParseBridgesFailsOnward(lines, islands, i + 1);
  }

  lemma ParseFailsAt(lines: seq<string>, islands: seq<Island>, i: nat)
    requires i < |lines| && BridgeRelation(lines[i], islands).Err?
    ensures ParseBridges(lines[..i + 1], islands).Err?
  {
    assert lines[..i + 1][..i] == lines[..i];
  }

  /** The loop over the bridge lines: each new Bridge attaches itself to the
      islands as the previous ones left them. */
  method ReadBridges(lines: seq<string>, islands: seq<Island>) returns (r: Result<(seq<Bridge>, seq<Island>)>)
    ensures r == LoadBridges(lines, islands)
  {
    var bridges: seq<Bridge> := [];
    var current := islands;
    assert current == AttachAll(islands, bridges);
    for i := 0 to |lines|
      invariant ParseBridges(lines[..i], islands) == Ok(bridges)
      invariant current == AttachAll(islands, bridges)
    {
      var parsed := ParseBridgeDefinition(lines[i], current);
      if parsed.Err? {
        BridgeStepFails(lines, islands, i, bridges);
        return FormatError();
      }
      BridgeStepParses(lines, islands, i, bridges, current);
      BridgeStepAttaches(lines[i], islands, bridges, current);
      bridges := bridges + [parsed.value.0];
      current := parsed.value.1;
    }
    assert lines[..|lines|] == lines;
    return Ok((bridges, current));
  }

  /** loadGame: the filter loop, the section checks, the field line and the
      two loops over the island and the bridge lines. */
  method LoadGame(fileLines: seq<string>) returns (r: Result<GameData>)
    ensures r == Load(fileLines)
  {
    var filteredLines := FilteredLines(fileLines);
    var index := IndexOf(filteredLines, "FIELD");
    if index != 0 {
      return FormatError();
    }
    index := IndexOf(filteredLines, "ISLANDS");
    if index != 2 {
      return FormatError();
    }
    var islandDefinitionEnd := |filteredLines|;
    var indexBridges := IndexOf(filteredLines, "BRIDGES");
    if indexBridges == -1 {
    } else if indexBridges > 3 {
      islandDefinitionEnd := indexBridges;
    } else {
      return FormatError();
    }
    var field := ParseFieldDefinition(filteredLines[1]);
    if field.Err? {
      return FormatError();
    }
    var islands := ReadIslands(filteredLines[3..islandDefinitionEnd]);
    if islands.Err? {
      return FormatError();
    }
    var loaded := ReadBridges(BridgeLines(filteredLines, islandDefinitionEnd), islands.value);
    if loaded.Err? {
      return FormatError();
    }
    r := Ok(GameData(field.value.nrOfRows, field.value.nrOfColumns, field.value.nrOfIslands,
                     loaded.value.1, loaded.value.0));
  }

  // ----- writing -----

  /** The key a list is sorted by: a major and a minor part. */
  datatype SortKey = SortKey(major: int, minor: int)

  /** Position i comes before position j once the list is sorted: by key, and
      on equal keys by position, which is the order a stable sort keeps. */
  predicate Precedes(keys: seq<SortKey>, i: nat, j: nat)
    requires i < |keys| && j < |keys|
  {
    keys[i].major < keys[j].major
    || (keys[i].major == keys[j].major
        && (keys[i].minor < keys[j].minor || (keys[i].minor == keys[j].minor && i < j)))
  }

  /** Every entry of order is a position of a list of length n. */
  predicate InRange(order: seq<nat>, n: nat) {
    forall a :: 0 <= a < |order| ==> order[a] < n
  }

  /** order lists positions of the list in sorted order. */
  predicate SortedBy(keys: seq<SortKey>, order: seq<nat>) {
    InRange(order, |keys|) && forall a, b :: 0 <= a < b < |order| ==> Precedes(keys, order[a], order[b])
  }

  /** Puts position x into a sorted list of positions. */
  function Insert(keys: seq<SortKey>, sorted: seq<nat>, x: nat): (r: seq<nat>)
    requires InRange(sorted, |keys|) && x < |keys|
    ensures |r| == |sorted| + 1 && InRange(r, |keys|)
    ensures multiset(r) == multiset(sorted) + multiset{x}
  {
    if sorted == [] then [x]
    else if Precedes(keys, x, sorted[0]) then [x] + sorted
    else
      assert sorted == [sorted[0]] + sorted[1..];
      [sorted[0]] + Insert(keys, sorted[1..], x)
  }

  /** The positions 0 .. m - 1 of a list in the order Stream.sorted puts
      them, here computed by inserting them one after the other. */
  function SortPrefix(keys: seq<SortKey>, m: nat): (r: seq<nat>)
    requires m <= |keys|
    ensures |r| == m && InRange(r, |keys|)
  {
    if m == 0 then [] else Insert(keys, SortPrefix(keys, m - 1), m - 1)
  }

  /** The stable sort of a whole list. */
  function SortedOrder(keys: seq<SortKey>): (r: seq<nat>)
    ensures |r| == |keys| && InRange(r, |keys|)
  {
    SortPrefix(keys, |keys|)
  }

  lemma {:induction false} InsertKeepsSorted(keys: seq<SortKey>, sorted: seq<nat>, x: nat)
    requires SortedBy(keys, sorted) && x < |keys| && x !in sorted
    ensures SortedBy(keys, Insert(keys, sorted, x))
  {
    if sorted == [] {
    } else if Precedes(keys, x, sorted[0]) {
      InsertInFront(keys, sorted, x);
    } else {
      var rest := sorted[1..];
      assert SortedBy(keys, rest);
      InsertKeepsSorted(keys, rest, x);
      var tail := Insert(keys, rest, x);
      HeadPrecedesInserted(keys, sorted, x, tail);
      ConsKeepsSorted(keys, sorted[0], tail);
    }
  }

  lemma InsertInFront(keys: seq<SortKey>, sorted: seq<nat>, x: nat)
    requires SortedBy(keys, sorted) && x < |keys| && sorted != [] && Precedes(keys, x, sorted[0])
    ensures SortedBy(keys, [x] + sorted)
  {
    var r := [x] + sorted;
    forall a, b | 0 <= a < b < |r| ensures Precedes(keys, r[a], r[b]) {
      if a == 0 {
        if b > 1 {
          PrecedesTransitive(keys, x, sorted[0], sorted[b - 1]);
        }
      } else {
        assert r[a] == sorted[a - 1] && r[b] == sorted[b - 1];
      }
    }
  }

  lemma HeadPrecedesInserted(keys: seq<SortKey>, sorted: seq<nat>, x: nat, tail: seq<nat>)
    requires SortedBy(keys, sorted) && x < |keys| && x !in sorted && sorted != []
    requires !Precedes(keys, x, sorted[0]) && InRange(tail, |keys|)
    requires multiset(tail) == multiset(sorted[1..]) + multiset{x}
    ensures forall b :: 0 <= b < |tail| ==> Precedes(keys, sorted[0], tail[b])
  {
    var rest := sorted[1..];
    forall b | 0 <= b < |tail| ensures Precedes(keys, sorted[0], tail[b]) {
      assert tail[b] in multiset(tail);
      if tail[b] != x {
        assert tail[b] in multiset(rest);
        var c :| 0 <= c < |rest| && rest[c] == tail[b];
        assert sorted[c + 1] == tail[b];
      }
    }
  }

  lemma ConsKeepsSorted(keys: seq<SortKey>, h: nat, tail: seq<nat>)
    requires SortedBy(keys, tail) && h < |keys|
    requires forall b :: 0 <= b < |tail| ==> Precedes(keys, h, tail[b])
    ensures SortedBy(keys, [h] + tail)
  {
    var r := [h] + tail;
    forall a, b | 0 <= a < b < |r| ensures Precedes(keys, r[a], r[b]) {
      assert r[b] == tail[b - 1];
      if a > 0 {
        assert r[a] == tail[a - 1];
      }
    }
  }

  lemma PrecedesTransitive(keys: seq<SortKey>, i: nat, j: nat, l: nat)
    requires i < |keys| && j < |keys| && l < |keys|
    requires Precedes(keys, i, j) && Precedes(keys, j, l)
    ensures Precedes(keys, i, l)
  {
  }

  /** The stable sort lists each of the positions 0 .. m - 1 exactly once. */
  lemma {:induction false} SortPrefixIsPermutation(keys: seq<SortKey>, m: nat)
    requires m <= |keys|
    ensures multiset(SortPrefix(keys, m)) == multiset(Positions(m))
  {
    if m > 0 {
      SortPrefixIsPermutation(keys, m - 1);
      assert Positions(m) == Positions(m - 1) + [m - 1];
    }
  }

  /** The stable sort lists the positions in sorted order. */
  lemma {:induction false} SortPrefixIsSorted(keys: seq<SortKey>, m: nat)
    requires m <= |keys|
    ensures SortedBy(keys, SortPrefix(keys, m))
    decreases m, 0
  {
    if m > 0 {
      InsertNextKeepsSorted(keys, m - 1);
    }
  }

  /** Inserting position m into the sorted first m positions keeps them sorted. */
  lemma {:induction false} InsertNextKeepsSorted(keys: seq<SortKey>, m: nat)
    requires m < |keys|
    ensures SortedBy(keys, Insert(keys, SortPrefix(keys, m), m))
    decreases m, 1
  {
    SortPrefixIsSorted(keys, m);
    NotYetSorted(keys, m);
    InsertKeepsSorted(keys, SortPrefix(keys, m), m);
  }

  /** Position m is not among the first m positions sorted. */
  lemma NotYetSorted(keys: seq<SortKey>, m: nat)
    requires m <= |keys|
    ensures m !in SortPrefix(keys, m)
  {
    SortPrefixIsPermutation(keys, m);
    PositionsBelow(m);
    assert m !in multiset(SortPrefix(keys, m));
  }

  /** The positions 0 .. m - 1 in increasing order. */
  function Positions(m: nat): (r: seq<nat>)
    ensures |r| == m && forall i :: 0 <= i < m ==> r[i] == i
  {
    if m == 0 then [] else Positions(m - 1) + [m - 1]
  }

  lemma PositionsBelow(m: nat)
    ensures m !in multiset(Positions(m))
  {
  }

  /** The sorted order of the whole list: each position once, in sorted order. */
  lemma SortedOrderSpec(keys: seq<SortKey>)
    ensures SortedBy(keys, SortedOrder(keys))
    ensures multiset(SortedOrder(keys)) == multiset(Positions(|keys|))
    ensures forall i :: 0 <= i < |keys| ==> i in SortedOrder(keys)
  {
    SortPrefixIsPermutation(keys, |keys|);
    SortPrefixIsSorted(keys, |keys|);
    forall i | 0 <= i < |keys| ensures i in SortedOrder(keys) {
      assert Positions(|keys|)[i] == i;
      assert i in multiset(Positions(|keys|));
    }
  }

  /** Islands are written sorted by column, then by row. */
  function IslandKeys(islands: seq<Island>): (r: seq<SortKey>)
    ensures |r| == |islands| && forall i :: 0 <= i < |islands| ==> r[i] == SortKey(islands[i].column, islands[i].row)
  {
    seq(|islands|, i requires 0 <= i < |islands| => SortKey(islands[i].column, islands[i].row))
  }

  /** The islands' positions in the island list, in the order they are written. */
  function SortedIslandOrder(islands: seq<Island>): (r: seq<nat>)
    ensures |r| == |islands| && InRange(r, |islands|)
  {
    SortedOrder(IslandKeys(islands))
  }

  /** getSmallerBridgeIndex: the smaller of the two ends' places among the
      sorted islands, found by List.indexOf (-1 for an island not listed). */
  function GetSmallerBridgeIndex(bridge: Bridge, sortedIsland: seq<nat>): (r: int)
    ensures r <= IndexOf(sortedIsland, bridge.island1) && r <= IndexOf(sortedIsland, bridge.island2)
    ensures r == IndexOf(sortedIsland, bridge.island1) || r == IndexOf(sortedIsland, bridge.island2)
  {
    var index1 := IndexOf(sortedIsland, bridge.island1);
    var index2 := IndexOf(sortedIsland, bridge.island2);
    if index1 < index2 then index1 else index2
  }

  /** getBiggerBridgeIndex: the bigger of the two ends' places among the sorted islands. */
  function GetBiggerBridgeIndex(bridge: Bridge, sortedIsland: seq<nat>): (r: int)
    ensures r >= IndexOf(sortedIsland, bridge.island1) && r >= IndexOf(sortedIsland, bridge.island2)
    ensures r == IndexOf(sortedIsland, bridge.island1) || r == IndexOf(sortedIsland, bridge.island2)
  {
    var index1 := IndexOf(sortedIsland, bridge.island1);
    var index2 := IndexOf(sortedIsland, bridge.island2);
    if index1 > index2 then index1 else index2
  }

  /** The two indices name the two ends, the smaller first. */
  lemma SmallerAndBiggerAreTheEnds(bridge: Bridge, sortedIsland: seq<nat>)
    ensures var s := GetSmallerBridgeIndex(bridge, sortedIsland);
            var b := GetBiggerBridgeIndex(bridge, sortedIsland);
            var i1 := IndexOf(sortedIsland, bridge.island1);
            var i2 := IndexOf(sortedIsland, bridge.island2);
            s <= b && ((s == i1 && b == i2) || (s == i2 && b == i1))
  {
  }

  /** Bridges are written sorted by the smaller index of their ends. */
  function BridgeKeys(bridges: seq<Bridge>, sortedIsland: seq<nat>): (r: seq<SortKey>)
    ensures |r| == |bridges|
    ensures forall j :: 0 <= j < |bridges| ==> r[j] == SortKey(GetSmallerBridgeIndex(bridges[j], sortedIsland), 0)
  {
    seq(|bridges|, j requires 0 <= j < |bridges| => SortKey(GetSmallerBridgeIndex(bridges[j], sortedIsland), 0))
  }

  /** The line written for the field: String.format("%d x %d | %d"). */
  function FieldLine(nrOfRows: int, nrOfColumns: int, nrOfIslands: int): string {
    IntToString(nrOfRows) + " x " + IntToString(nrOfColumns) + " | " + IntToString(nrOfIslands)
  }

  /** The entry written for a bridge: String.format("( %d , %d | %s)"). */
  function EntryText(e: BridgeEntry): string {
    "( " + IntToString(e.index1) + " , " + IntToString(e.index2) + " | " + BoolToString(e.isDoubleBridge) + ")"
  }

  /** What the serialiser writes for a bridge: the smaller and the bigger
      index of its ends among the sorted islands, and the double flag. */
  function EntryOf(bridge: Bridge, sortedIsland: seq<nat>): BridgeEntry {
    BridgeEntry(GetSmallerBridgeIndex(bridge, sortedIsland), GetBiggerBridgeIndex(bridge, sortedIsland),
                bridge.isDoubleBridge)
  }

  /** The pieces, each followed by the separator, one after the other. */
  function Joined(pieces: seq<string>, separator: string): string {
    if pieces == [] then ""
    else Joined(pieces[..|pieces| - 1], separator) + pieces[|pieces| - 1] + separator
  }

  /** Appending one more piece and its separator to what has been written. */
  lemma JoinedStep(head: string, pieces: seq<string>, separator: string, k: nat)
    requires k < |pieces|
    ensures head + Joined(pieces[..k + 1], separator) == (head + Joined(pieces[..k], separator)) + (pieces[k] + separator)
  {
    assert pieces[..k + 1][..k] == pieces[..k];
  }

  /** The island lines, in the order they are written. */
  function IslandLines(islands: seq<Island>, sortedIsland: seq<nat>): (r: seq<string>)
    requires InRange(sortedIsland, |islands|)
    ensures |r| == |sortedIsland|
  {
    seq(|sortedIsland|, k requires 0 <= k < |sortedIsland| => Islands.ToFileFormat(islands[sortedIsland[k]]))
  }

  /** The bridge entries, in the order they are written. */
  function EntryTexts(bridges: seq<Bridge>, sortedBridge: seq<nat>, sortedIsland: seq<nat>): (r: seq<string>)
    requires InRange(sortedBridge, |bridges|)
    ensures |r| == |sortedBridge|
  {
    seq(|sortedBridge|, k requires 0 <= k < |sortedBridge| => EntryText(EntryOf(bridges[sortedBridge[k]], sortedIsland)))
  }

  /** How the BRIDGES section is laid out: as toFileFormat writes it, the
      marker and every entry on one line with nothing in between, or, as the
      format describes it, the marker and each entry on a line of its own. */
  datatype BridgeLayout = RunTogether | OneLinePerBridge

  function BridgeSeparator(layout: BridgeLayout): string {
    if layout == RunTogether then "" else "\n"
  }

  /** The heading of the file, up to and including the ISLANDS line. */
  function Heading(g: GameData): string {
    "FIELD\n" + "# Height x Width | Number of islands\n"
    + FieldLine(g.nrOfRows, g.nrOfColumns, g.nrOfIslands) + "\n\n" + "ISLANDS\n"
  }

  /** toFileFormat: the heading, the islands sorted by column and row, an
      empty line, and the BRIDGES section. */
  function FileText(g: GameData, layout: BridgeLayout): string {
    var sortedIsland := SortedIslandOrder(g.islands);
    Heading(g) + Joined(IslandLines(g.islands, sortedIsland), "\n") + "\n"
    + BridgeSection(g.bridges, sortedIsland, layout)
  }

  /** The BRIDGES marker, then the bridges sorted by the smaller index of their ends. */
  function BridgeSection(bridges: seq<Bridge>, sortedIsland: seq<nat>, layout: BridgeLayout): string {
    var sortedBridge := SortedOrder(BridgeKeys(bridges, sortedIsland));
    "BRIDGES" + BridgeSeparator(layout) + Joined(EntryTexts(bridges, sortedBridge, sortedIsland), BridgeSeparator(layout))
  }

  /** toFileFormat: the string buffer filled line by line. */
  method ToFileFormat(g: GameData, layout: BridgeLayout) returns (text: string)
    ensures text == FileText(g, layout)
  {
    var sbf := "FIELD\n";
    sbf := sbf + "# Height x Width | Number of islands\n";
    sbf := sbf + FieldLine(g.nrOfRows, g.nrOfColumns, g.nrOfIslands) + "\n\n";
    sbf := sbf + "ISLANDS\n";
    var sortedIslands := SortedIslandOrder(g.islands);
    sbf := AppendIslands(sbf, g.islands, sortedIslands);
    var sortedBridges := SortedOrder(BridgeKeys(g.bridges, sortedIslands));
    sbf := sbf + "\n";
    ghost var beforeBridges := sbf;
    sbf := sbf + "BRIDGES" + BridgeSeparator(layout);
    text := AppendBridges(sbf, g.bridges, sortedBridges, sortedIslands, layout);
    WithBridgeSection(beforeBridges, g.bridges, sortedIslands, layout);
  }

  /** What is written after the islands is the BRIDGES section. */
  lemma WithBridgeSection(before: string, bridges: seq<Bridge>, sortedIsland: seq<nat>, layout: BridgeLayout)
    ensures var separator := BridgeSeparator(layout);
            var entries := EntryTexts(bridges, SortedOrder(BridgeKeys(bridges, sortedIsland)), sortedIsland);
            before + "BRIDGES" + separator + Joined(entries, separator) == before + BridgeSection(bridges, sortedIsland, layout)
  {
    var separator := BridgeSeparator(layout);
    var entries := EntryTexts(bridges, SortedOrder(BridgeKeys(bridges, sortedIsland)), sortedIsland);
    assert BridgeSection(bridges, sortedIsland, layout) == "BRIDGES" + separator + Joined(entries, separator);
  }

  /** The island loop of toFileFormat: each island's line and a line break,
      in sorted order. */
  method AppendIslands(sbf: string, islands: seq<Island>, sortedIslands: seq<nat>) returns (r: string)
    requires InRange(sortedIslands, |islands|)
    ensures r == sbf + Joined(IslandLines(islands, sortedIslands), "\n")
  {
    ghost var lines := IslandLines(islands, sortedIslands);
    r := sbf;
    for k := 0 to |sortedIslands|
      invariant r == sbf + Joined(lines[..k], "\n")
    {
      var line := Islands.ToFileFormat(islands[sortedIslands[k]]);
      JoinedStep(sbf, lines, "\n", k);
      r := r + (line + "\n");
    }
    assert lines[..|sortedIslands|] == lines;
  }

  /** The bridge loop of toFileFormat: each bridge's entry, in sorted order,
      with the separator of the layout after it. */
  method AppendBridges(sbf: string, bridges: seq<Bridge>, sortedBridges: seq<nat>, sortedIslands: seq<nat>,
                       layout: BridgeLayout) returns (r: string)
    requires InRange(sortedBridges, |bridges|)
    ensures r == sbf + Joined(EntryTexts(bridges, sortedBridges, sortedIslands), BridgeSeparator(layout))
  {
    var separator := BridgeSeparator(layout);
    ghost var entries := EntryTexts(bridges, sortedBridges, sortedIslands);
    r := sbf;
    for k := 0 to |sortedBridges|
      invariant r == sbf + Joined(entries[..k], separator)
    {
      var br := bridges[sortedBridges[k]];
      var smallerIndex := GetSmallerBridgeIndex(br, sortedIslands);
      var biggerIndex := GetBiggerBridgeIndex(br, sortedIslands);
      var entry := EntryText(BridgeEntry(smallerIndex, biggerIndex, br.isDoubleBridge));
      JoinedStep(sbf, entries, separator, k);
      r := r + (entry + separator);
    }
    assert entries[..|sortedBridges|] == entries;
  }
}
