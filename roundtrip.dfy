/** What the parser of the bgs format makes of the text the serialiser
    writes (GameModelIO.java): line by line, and for a whole board. */
module RoundTrip {
  import opened Wrappers
  import opened JavaStrings
  import opened Islands
  import opened Bridges
  import opened GameModelUtils
  import opened GameModelIO

  // ----- single lines -----

  /** A padding the writer puts around a number: nothing or one blank. */
  predicate Blank(p: string) {
    p == "" || p == " "
  }

  /** String.trim removes the blanks around a number. */
  lemma TrimPadded(x: int, p: string, q: string)
    requires Blank(p) && Blank(q)
    ensures Trim(p + IntToString(x) + q) == IntToString(x)
  {
    var s := IntToString(x);
    IntToStringIsVisible(x);
    TrimOfVisible(s);
    if p == "" {
      assert p + s + q == s + q;
      if q == "" {
        assert s + q == s;
      }
    } else if q == "" {
      assert p + s + q == " " + s;
    }
  }

  /** A number written with blanks around it contains no separator. */
  lemma NoSeparatorInPadded(x: int, p: string, q: string, c: char)
    requires Blank(p) && Blank(q) && c != ' ' && c != '-' && !IsDigit(c)
    ensures c !in p + IntToString(x) + q
  {
    NoOtherCharInIntToString(x, c);
  }

  /** A number written with blanks around it reads back as the number and
      holds no separator. */
  lemma PaddedIntParses(x: int, p: string, q: string, c: char)
    requires IsInt32(x) && Blank(p) && Blank(q) && c != ' ' && c != '-' && !IsDigit(c)
    ensures var a := p + IntToString(x) + q;
            a != [] && c !in a && ParseInt(Trim(a)) == Some(x)
  {
    NoSeparatorInPadded(x, p, q, c);
    TrimPadded(x, p, q);
    ParseIntOfIntToString(x);
  }

  /** Two numbers written around the separator c read back as the same two numbers. */
  lemma TwoIntsRoundTrip(x: int, y: int, c: char, p1: string, p2: string, p3: string, p4: string)
    requires IsInt32(x) && IsInt32(y) && c != ' ' && c != '-' && !IsDigit(c)
    requires Blank(p1) && Blank(p2) && Blank(p3) && Blank(p4)
    ensures ParseTwoInts(p1 + IntToString(x) + p2 + [c] + p3 + IntToString(y) + p4, c) == Some((x, y))
  {
    var a := p1 + IntToString(x) + p2;
    var b := p3 + IntToString(y) + p4;
    PaddedIntParses(x, p1, p2, c);
    PaddedIntParses(y, p3, p4, c);
    SplitTwo(a, b, c);
    ConcatAssoc(a + [c], p3, IntToString(y), p4);
  }

  /** The field line split at the bar. */
  lemma FieldLineSplit(nrOfRows: int, nrOfColumns: int, nrOfIslands: int)
    ensures Split(FieldLine(nrOfRows, nrOfColumns, nrOfIslands), '|')
            == ["" + IntToString(nrOfRows) + " " + ['x'] + " " + IntToString(nrOfColumns) + " ",
                " " + IntToString(nrOfIslands) + ""]
  {
    var a := "" + IntToString(nrOfRows) + " " + ['x'] + " " + IntToString(nrOfColumns) + " ";
    var b := " " + IntToString(nrOfIslands) + "";
    FieldLineShape(IntToString(nrOfRows), IntToString(nrOfColumns), IntToString(nrOfIslands));
    NoSeparatorInPadded(nrOfRows, "", " ", '|');
    NoSeparatorInPadded(nrOfColumns, " ", " ", '|');
    NoSeparatorInPadded(nrOfIslands, " ", "", '|');
    SplitTwo(a, b, '|');
  }

  lemma FieldLineShape(rows: string, columns: string, n: string)
    ensures rows + " x " + columns + " | " + n == ("" + rows + " " + ['x'] + " " + columns + " ") + ['|'] + (" " + n + "")
  {
  }

  /** The field line reads back as the three numbers written. */
  lemma FieldLineRoundTrip(nrOfRows: int, nrOfColumns: int, nrOfIslands: int)
    requires IsInt32(nrOfRows) && IsInt32(nrOfColumns) && IsInt32(nrOfIslands)
    ensures ParseFieldDefinition(FieldLine(nrOfRows, nrOfColumns, nrOfIslands))
            == Ok(Field(nrOfRows, nrOfColumns, nrOfIslands))
  {
    FieldLineSplit(nrOfRows, nrOfColumns, nrOfIslands);
    TrimPadded(nrOfIslands, " ", "");
    ParseIntOfIntToString(nrOfIslands);
    TwoIntsRoundTrip(nrOfRows, nrOfColumns, 'x', "", " ", " ", " ");
  }

  lemma IslandLineShape(row: string, column: string, capacity: string)
    ensures "( " + row + ", " + column + " | " + capacity + " )"
            == "(" + ((" " + row + "" + [','] + " " + column + " ") + ['|'] + (" " + capacity + " ")) + ")"
  {
  }

  /** The island line without its parentheses, split at the bar. */
  lemma IslandLineSplit(i: Island)
    ensures var s := Islands.ToFileFormat(i);
            StartsWith(s, "(") && EndsWith(s, ")") && Inner(s).Some?
            && Split(Inner(s).value, '|')
               == [" " + IntToString(i.row) + "" + [','] + " " + IntToString(i.column) + " ",
                   " " + IntToString(i.bridgeCapacity) + " "]
  {
    var a := " " + IntToString(i.row) + "" + [','] + " " + IntToString(i.column) + " ";
    var b := " " + IntToString(i.bridgeCapacity) + " ";
    IslandLineShape(IntToString(i.row), IntToString(i.column), IntToString(i.bridgeCapacity));
    var content := a + ['|'] + b;
    assert Islands.ToFileFormat(i) == "(" + content + ")";
    assert Inner(Islands.ToFileFormat(i)) == Some(content);
    NoSeparatorInPadded(i.row, " ", "", '|');
    NoSeparatorInPadded(i.column, " ", " ", '|');
    NoSeparatorInPadded(i.bridgeCapacity, " ", " ", '|');
    SplitTwo(a, b, '|');
  }

  /** The line written for an island reads back as a new island with the
      same row, column and capacity. */
  lemma IslandLineRoundTrip(i: Island)
    requires IsInt32(i.row) && IsInt32(i.column) && IsInt32(i.bridgeCapacity)
    ensures ParseIslandDefinition(Islands.ToFileFormat(i)) == Ok(NewIsland(i.row, i.column, i.bridgeCapacity))
  {
    IslandLineSplit(i);
    TrimPadded(i.bridgeCapacity, " ", " ");
    ParseIntOfIntToString(i.bridgeCapacity);
    TwoIntsRoundTrip(i.row, i.column, ',', " ", "", " ", " ");
  }

  /** Boolean.parseBoolean reads back String.valueOf. */
  lemma ParseBooleanOfBoolToString(b: bool)
    ensures ParseBoolean(BoolToString(b)) == b
  {
  }

  lemma EntryShape(first: string, second: string, flag: string)
    ensures "( " + first + " , " + second + " | " + flag + ")"
            == "(" + ((" " + first + " " + [','] + " " + second + " ") + ['|'] + (" " + flag)) + ")"
  {
  }

  /** The entry without its first and last character, split at the bar. */
  lemma EntrySplit(e: BridgeEntry)
    ensures var s := EntryText(e);
            Inner(s).Some?
            && Split(Inner(s).value, '|')
               == [" " + IntToString(e.index1) + " " + [','] + " " + IntToString(e.index2) + " ",
                   " " + BoolToString(e.isDoubleBridge)]
  {
    var a := " " + IntToString(e.index1) + " " + [','] + " " + IntToString(e.index2) + " ";
    var b := " " + BoolToString(e.isDoubleBridge);
    EntryShape(IntToString(e.index1), IntToString(e.index2), BoolToString(e.isDoubleBridge));
    var content := a + ['|'] + b;
    assert Inner(EntryText(e)) == Some(content);
    NoSeparatorInPadded(e.index1, " ", " ", '|');
    NoSeparatorInPadded(e.index2, " ", " ", '|');
    assert '|' !in b;
    SplitTwo(a, b, '|');
  }

  /** The entry written for a bridge reads back as the same two indices and flag. */
  lemma EntryRoundTrip(e: BridgeEntry)
    requires IsInt32(e.index1) && IsInt32(e.index2)
    ensures ParseBridgeEntry(EntryText(e)) == Ok(e)
  {
    EntrySplit(e);
    TrimOfVisible(BoolToString(e.isDoubleBridge));
    ParseBooleanOfBoolToString(e.isDoubleBridge);
    TwoIntsRoundTrip(e.index1, e.index2, ',', " ", " ", " ", " ");
  }

  // ----- the lines of the text -----

  /** The lines BufferedReader.readLine returns for a text whose line breaks
      are '\n': the pieces between the breaks, where a break at the very end
      closes the last line instead of opening an empty one. */
  function ReadLines(text: string): (r: seq<string>)
    ensures r == SplitAll(text, '\n') || r + [""] == SplitAll(text, '\n')
  {
    var parts := SplitAll(text, '\n');
    if parts[|parts| - 1] == "" then parts[..|parts| - 1] else parts
  }

  predicate NoBreaks(lines: seq<string>) {
    forall k :: 0 <= k < |lines| ==> '\n' !in lines[k]
  }

  /** Lines written one after the other, each ended by a line break, split
      back into the same lines. */
  lemma {:induction false} SplitJoined(lines: seq<string>, t: string)
    requires NoBreaks(lines)
    ensures SplitAll(Joined(lines, "\n") + t, '\n') == lines + SplitAll(t, '\n')
  {
    if lines != [] {
      var init := lines[..|lines| - 1];
      var last := lines[|lines| - 1];
      JoinedLast(lines, t);
      assert NoBreaks(init);
      SplitJoined(init, last + ['\n'] + t);
      SplitOneMore(init, last, t);
      assert init + [last] == lines;
    } else {
      assert Joined(lines, "\n") + t == t;
    }
  }

  lemma JoinedLast(lines: seq<string>, t: string)
    requires lines != []
    ensures Joined(lines, "\n") + t == Joined(lines[..|lines| - 1], "\n") + (lines[|lines| - 1] + ['\n'] + t)
  {
    assert "\n" == ['\n'];
    ConcatAssoc(Joined(lines[..|lines| - 1], "\n"), lines[|lines| - 1], "\n", t);
  }

  lemma ConcatAssoc(a: string, b: string, c: string, d: string)
    ensures a + b + c + d == a + (b + c + d)
  {
  }

  lemma SplitOneMore(init: seq<string>, last: string, t: string)
    requires '\n' !in last
    ensures init + SplitAll(last + ['\n'] + t, '\n') == (init + [last]) + SplitAll(t, '\n')
  {
    SplitAllFirst(last, t, '\n');
  }

  /** No line break inside pieces without one, joined without a separator. */
  lemma {:induction false} JoinedWithoutBreaks(pieces: seq<string>)
    requires NoBreaks(pieces)
    ensures '\n' !in Joined(pieces, "")
  {
    if pieces != [] {
      JoinedWithoutBreaks(pieces[..|pieces| - 1]);
    }
  }

  lemma HeadingShape(field: string, rest: string)
    ensures "FIELD\n" + "# Height x Width | Number of islands\n" + field + "\n\n" + "ISLANDS\n" + rest
            == "FIELD" + ['\n'] + ("# Height x Width | Number of islands" + ['\n']
               + (field + ['\n'] + ("" + ['\n'] + ("ISLANDS" + ['\n'] + rest))))
  {
  }

  /** The five lines of the heading. */
  function HeaderLines(g: GameData): seq<string> {
    ["FIELD", "# Height x Width | Number of islands", FieldLine(g.nrOfRows, g.nrOfColumns, g.nrOfIslands), "", "ISLANDS"]
  }

  lemma FieldLineHasNoBreak(g: GameData)
    ensures '\n' !in FieldLine(g.nrOfRows, g.nrOfColumns, g.nrOfIslands)
  {
    NoOtherCharInIntToString(g.nrOfRows, '\n');
    NoOtherCharInIntToString(g.nrOfColumns, '\n');
    NoOtherCharInIntToString(g.nrOfIslands, '\n');
  }

  lemma FixedHeadingLinesHaveNoBreak()
    ensures '\n' !in "FIELD" && '\n' !in "# Height x Width | Number of islands" && '\n' !in "" && '\n' !in "ISLANDS"
  {
  }

  /** Five lines, each ended by a line break, split off the front. */
  lemma SplitFiveLines(l1: string, l2: string, l3: string, l4: string, l5: string, rest: string)
    requires '\n' !in l1 && '\n' !in l2 && '\n' !in l3 && '\n' !in l4 && '\n' !in l5
    ensures SplitAll(l1 + ['\n'] + (l2 + ['\n'] + (l3 + ['\n'] + (l4 + ['\n'] + (l5 + ['\n'] + rest)))), '\n')
            == [l1, l2, l3, l4, l5] + SplitAll(rest, '\n')
  {
    var r4 := l5 + ['\n'] + rest;
    var r3 := l4 + ['\n'] + r4;
    var r2 := l3 + ['\n'] + r3;
    var r1 := l2 + ['\n'] + r2;
    SplitAllFirst(l5, rest, '\n');
    SplitAllFirst(l4, r4, '\n');
    SplitAllFirst(l3, r3, '\n');
    SplitAllFirst(l2, r2, '\n');
    SplitAllFirst(l1, r1, '\n');
  }

  /** The heading splits into its five lines. */
  lemma SplitHeading(g: GameData, rest: string)
    ensures SplitAll(Heading(g) + rest, '\n') == HeaderLines(g) + SplitAll(rest, '\n')
  {
    var field := FieldLine(g.nrOfRows, g.nrOfColumns, g.nrOfIslands);
    HeadingShape(field, rest);
    FieldLineHasNoBreak(g);
    FixedHeadingLinesHaveNoBreak();
    SplitFiveLines("FIELD", "# Height x Width | Number of islands", field, "", "ISLANDS", rest);
  }

  // ----- the lines of a saved board -----

  /** The order the islands are written in: positions in the island list. */
  function IslandOrder(g: GameData): seq<nat> {
    SortedIslandOrder(g.islands)
  }

  /** The order the bridges are written in: positions in the bridge list. */
  function BridgeOrder(g: GameData): seq<nat> {
    SortedOrder(BridgeKeys(g.bridges, IslandOrder(g)))
  }

  function WrittenIslands(g: GameData): seq<string> {
    IslandLines(g.islands, IslandOrder(g))
  }

  function WrittenEntries(g: GameData): seq<string> {
    EntryTexts(g.bridges, BridgeOrder(g), IslandOrder(g))
  }

  lemma IslandLineHasNoBreak(i: Island)
    ensures '\n' !in Islands.ToFileFormat(i)
  {
    NoOtherCharInIntToString(i.row, '\n');
    NoOtherCharInIntToString(i.column, '\n');
    NoOtherCharInIntToString(i.bridgeCapacity, '\n');
  }

  lemma EntryHasNoBreak(e: BridgeEntry)
    ensures '\n' !in EntryText(e)
  {
    NoOtherCharInIntToString(e.index1, '\n');
    NoOtherCharInIntToString(e.index2, '\n');
  }

  lemma WrittenLinesHaveNoBreaks(g: GameData)
    ensures NoBreaks(WrittenIslands(g)) && NoBreaks(WrittenEntries(g))
  {
    var io := IslandOrder(g);
    var bo := BridgeOrder(g);
    forall k | 0 <= k < |io| ensures '\n' !in WrittenIslands(g)[k] {
      IslandLineHasNoBreak(g.islands[io[k]]);
    }
    forall k | 0 <= k < |bo| ensures '\n' !in WrittenEntries(g)[k] {
      EntryHasNoBreak(EntryOf(g.bridges[bo[k]], io));
    }
  }

  lemma TextShape(heading: string, islandText: string, bridgeText: string)
    ensures heading + islandText + "\n" + bridgeText == heading + (islandText + ("" + ['\n'] + bridgeText))
  {
  }

  /** The bridge section of the text: the marker and the entries. */
  function BridgeSectionText(g: GameData, layout: BridgeLayout): string {
    BridgeSection(g.bridges, IslandOrder(g), layout)
  }

  lemma FileTextParts(g: GameData, layout: BridgeLayout)
    ensures FileText(g, layout) == Heading(g) + Joined(WrittenIslands(g), "\n") + "\n" + BridgeSectionText(g, layout)
  {
  }

  /** The text splits into the heading's lines, the island lines, the empty
      line and what the bridge section splits into. */
  lemma SplitFileText(g: GameData, layout: BridgeLayout)
    ensures SplitAll(FileText(g, layout), '\n')
            == HeaderLines(g) + (WrittenIslands(g) + ([""] + SplitAll(BridgeSectionText(g, layout), '\n')))
  {
    var islandText := Joined(WrittenIslands(g), "\n");
    var bridgeText := BridgeSectionText(g, layout);
    FileTextParts(g, layout);
    TextShape(Heading(g), islandText, bridgeText);
    SplitHeading(g, islandText + ("" + ['\n'] + bridgeText));
    WrittenLinesHaveNoBreaks(g);
    SplitJoined(WrittenIslands(g), "" + ['\n'] + bridgeText);
    SplitAllFirst("", bridgeText, '\n');
  }

  /** With one entry per line, the bridge section splits into the marker,
      the entries and the empty rest after the last line break. */
  lemma SplitMarkerPerLine(entries: seq<string>)
    requires NoBreaks(entries)
    ensures SplitAll("BRIDGES" + "\n" + Joined(entries, "\n"), '\n') == ["BRIDGES"] + entries + [""]
  {
    var entriesText := Joined(entries, "\n");
    assert "BRIDGES" + "\n" + entriesText == "BRIDGES" + ['\n'] + (entriesText + "");
    SplitAllFirst("BRIDGES", entriesText + "", '\n');
    SplitJoined(entries, "");
  }

  /** Run together, the bridge section is one line. */
  lemma SplitMarkerRunTogether(entries: seq<string>)
    requires NoBreaks(entries)
    ensures SplitAll("BRIDGES" + "" + Joined(entries, ""), '\n') == ["BRIDGES" + Joined(entries, "")]
  {
    JoinedWithoutBreaks(entries);
    assert "BRIDGES" + "" + Joined(entries, "") == "BRIDGES" + Joined(entries, "");
    SplitAllNone("BRIDGES" + Joined(entries, ""), '\n');
  }

  lemma SplitBridgeSectionPerLine(g: GameData)
    ensures SplitAll(BridgeSectionText(g, OneLinePerBridge), '\n') == ["BRIDGES"] + WrittenEntries(g) + [""]
  {
    WrittenLinesHaveNoBreaks(g);
    SplitMarkerPerLine(WrittenEntries(g));
  }

  lemma SplitBridgeSectionRunTogether(g: GameData)
    ensures SplitAll(BridgeSectionText(g, RunTogether), '\n') == ["BRIDGES" + Joined(WrittenEntries(g), "")]
  {
    WrittenLinesHaveNoBreaks(g);
    SplitMarkerRunTogether(WrittenEntries(g));
  }

  /** A text whose last character is a line break: the lines before it. */
  lemma ReadLinesOfTrailingBreak(text: string, lines: seq<string>)
    requires SplitAll(text, '\n') == lines + [""]
    ensures ReadLines(text) == lines
  {
    assert (lines + [""])[..|lines|] == lines;
  }

  /** A text whose last line is not empty: all the pieces. */
  lemma ReadLinesOfLastLine(text: string, lines: seq<string>)
    requires SplitAll(text, '\n') == lines && lines != [] && lines[|lines| - 1] != ""
    ensures ReadLines(text) == lines
  {
  }

  lemma PerLineShape(header: seq<string>, islands: seq<string>, entries: seq<string>)
    ensures header + (islands + ([""] + (["BRIDGES"] + entries + [""])))
            == (header + islands + ["", "BRIDGES"] + entries) + [""]
  {
  }

  lemma RunTogetherShape(header: seq<string>, islands: seq<string>, last: string)
    ensures header + (islands + ([""] + [last])) == header + islands + ["", last]
  {
  }

  /** The lines of a board saved with one entry per line. */
  lemma LinesPerLine(g: GameData)
    ensures ReadLines(FileText(g, OneLinePerBridge))
            == HeaderLines(g) + WrittenIslands(g) + ["", "BRIDGES"] + WrittenEntries(g)
  {
    SplitFileText(g, OneLinePerBridge);
    SplitBridgeSectionPerLine(g);
    PerLineShape(HeaderLines(g), WrittenIslands(g), WrittenEntries(g));
    ReadLinesOfTrailingBreak(FileText(g, OneLinePerBridge),
                             HeaderLines(g) + WrittenIslands(g) + ["", "BRIDGES"] + WrittenEntries(g));
  }

  /** The lines of a board saved as toFileFormat writes it: the marker and
      all entries end up on one last line. */
  lemma LinesRunTogether(g: GameData)
    ensures ReadLines(FileText(g, RunTogether))
            == HeaderLines(g) + WrittenIslands(g) + ["", "BRIDGES" + Joined(WrittenEntries(g), "")]
  {
    SplitFileText(g, RunTogether);
    SplitBridgeSectionRunTogether(g);
    var last := "BRIDGES" + Joined(WrittenEntries(g), "");
    RunTogetherShape(HeaderLines(g), WrittenIslands(g), last);
    ReadLinesOfLastLine(FileText(g, RunTogether), HeaderLines(g) + WrittenIslands(g) + ["", last]);
  }

  // ----- the filter -----

  /** Filtering a concatenation filters each part. */
  lemma {:induction false} FilterAppend(a: seq<string>, b: seq<string>)
    ensures FilterLines(a + b) == FilterLines(a) + FilterLines(b)
  {
    if b == [] {
      assert a + b == a;
    } else {
      var init := b[..|b| - 1];
      assert (a + b)[..|a + b| - 1] == a + init;
      assert (a + b)[|a + b| - 1] == b[|b| - 1];
      FilterAppend(a, init);
    }
  }

  /** Lines that are all content lines pass the filter unchanged. */
  lemma {:induction false} FilterKeepsContent(lines: seq<string>)
    requires forall k :: 0 <= k < |lines| ==> IsContentLine(lines[k])
    ensures FilterLines(lines) == lines
  {
    if lines != [] {
      FilterKeepsContent(lines[..|lines| - 1]);
    }
  }

  /** The filter drops an empty line or a comment wherever it stands. */
  lemma FilterSkips(before: seq<string>, line: string, after: seq<string>)
    requires !IsContentLine(line)
    ensures FilterLines(before + [line] + after) == FilterLines(before + after)
  {
    FilterAppend(before + [line], after);
    FilterAppend(before, [line]);
    FilterAppend(before, after);
    assert FilterLines([line]) == [];
  }

  /** loadGame ignores empty lines and comments wherever they stand. */
  lemma LoadIgnoresBlankAndComment(before: seq<string>, line: string, after: seq<string>)
    requires !IsContentLine(line)
    ensures Load(before + [line] + after) == Load(before + after)
  {
    FilterSkips(before, line, after);
  }

  lemma FilterOne(line: string)
    ensures FilterLines([line]) == if IsContentLine(line) then [line] else []
  {
  }

  lemma FilterHeader(field: string, comment: string)
    requires IsContentLine(field) && !IsContentLine(comment)
    ensures FilterLines(["FIELD", comment, field, "", "ISLANDS"]) == ["FIELD", field, "ISLANDS"]
  {
    var lines := ["FIELD", comment, field, "", "ISLANDS"];
    assert lines == ["FIELD"] + [comment] + [field] + [""] + ["ISLANDS"];
    FilterAppend(["FIELD"] + [comment] + [field] + [""], ["ISLANDS"]);
    FilterAppend(["FIELD"] + [comment] + [field], [""]);
    FilterAppend(["FIELD"] + [comment], [field]);
    FilterAppend(["FIELD"], [comment]);
    FilterOne("FIELD");
    FilterOne(comment);
    FilterOne(field);
    FilterOne("");
    FilterOne("ISLANDS");
  }

  /** A text line that starts with a parenthesis. */
  predicate Parenthesised(line: string) {
    |line| > 0 && line[0] == '('
  }

  lemma WrittenLinesAreParenthesised(g: GameData)
    ensures forall k :: 0 <= k < |WrittenIslands(g)| ==> Parenthesised(WrittenIslands(g)[k])
    ensures forall k :: 0 <= k < |WrittenEntries(g)| ==> Parenthesised(WrittenEntries(g)[k])
  {
  }

  lemma ParenthesisedAreContent(lines: seq<string>)
    requires forall k :: 0 <= k < |lines| ==> Parenthesised(lines[k])
    ensures forall k :: 0 <= k < |lines| ==> IsContentLine(lines[k]) && lines[k] != "BRIDGES"
  {
  }

  /** The lines of the heading loadGame keeps. */
  lemma FilterHeading(g: GameData)
    ensures FilterLines(HeaderLines(g)) == ["FIELD", FieldLine(g.nrOfRows, g.nrOfColumns, g.nrOfIslands), "ISLANDS"]
  {
    var field := FieldLine(g.nrOfRows, g.nrOfColumns, g.nrOfIslands);
    assert field[0] == IntToString(g.nrOfRows)[0];
    var comment := "# Height x Width | Number of islands";
    assert comment[0] == '#';
    assert comment[..1] == "#";
    FilterHeader(field, comment);
  }

  lemma FilterFourParts(a: seq<string>, b: seq<string>, c: seq<string>, d: seq<string>)
    ensures FilterLines(a + b + c + d) == FilterLines(a) + FilterLines(b) + FilterLines(c) + FilterLines(d)
  {
    FilterAppend(a + b + c, d);
    FilterAppend(a + b, c);
    FilterAppend(a, b);
  }

  function FieldLineOf(g: GameData): string {
    FieldLine(g.nrOfRows, g.nrOfColumns, g.nrOfIslands)
  }

  lemma FilterSavedPerLine(header: seq<string>, kept: seq<string>, islands: seq<string>, entries: seq<string>)
    requires FilterLines(header) == kept
    requires forall k :: 0 <= k < |islands| ==> Parenthesised(islands[k])
    requires forall k :: 0 <= k < |entries| ==> Parenthesised(entries[k])
    ensures FilterLines(header + islands + ["", "BRIDGES"] + entries) == kept + islands + ["BRIDGES"] + entries
  {
    FilterFourParts(header, islands, ["", "BRIDGES"], entries);
    ParenthesisedAreContent(islands);
    ParenthesisedAreContent(entries);
    FilterKeepsContent(islands);
    FilterKeepsContent(entries);
    FilterMarker();
  }

  lemma FilterMarker()
    ensures FilterLines(["", "BRIDGES"]) == ["BRIDGES"]
  {
    FilterAppend([""], ["BRIDGES"]);
    assert [""] + ["BRIDGES"] == ["", "BRIDGES"];
    FilterOne("");
    assert "BRIDGES"[..1][0] == 'B';
    FilterOne("BRIDGES");
  }

  lemma FilterSavedRunTogether(header: seq<string>, kept: seq<string>, islands: seq<string>, last: string)
    requires FilterLines(header) == kept
    requires forall k :: 0 <= k < |islands| ==> Parenthesised(islands[k])
    requires |last| > 0 && last[0] == 'B'
    ensures FilterLines(header + islands + ["", last]) == kept + islands + [last]
  {
    ParenthesisedAreContent(islands);
    FilterKeepsContent(islands);
    FilterAppend(header, islands);
    FilterAppend(header + islands, ["", last]);
    FilterBlankThen(last);
  }

  lemma FilterBlankThen(last: string)
    requires |last| > 0 && last[0] == 'B'
    ensures FilterLines(["", last]) == [last]
  {
    FilterAppend([""], [last]);
    assert [""] + [last] == ["", last];
    FilterOne("");
    FilterOne(last);
  }

  /** The lines loadGame keeps of a board saved with one entry per line. */
  lemma FilteredPerLine(g: GameData)
    ensures FilterLines(ReadLines(FileText(g, OneLinePerBridge)))
            == ["FIELD", FieldLineOf(g), "ISLANDS"] + WrittenIslands(g) + ["BRIDGES"] + WrittenEntries(g)
  {
    LinesPerLine(g);
    FilterHeading(g);
    WrittenLinesAreParenthesised(g);
    FilterSavedPerLine(HeaderLines(g), ["FIELD", FieldLineOf(g), "ISLANDS"], WrittenIslands(g), WrittenEntries(g));
  }

  /** The lines loadGame keeps of a board saved as toFileFormat writes it. */
  lemma FilteredRunTogether(g: GameData)
    ensures FilterLines(ReadLines(FileText(g, RunTogether)))
            == ["FIELD", FieldLineOf(g), "ISLANDS"] + WrittenIslands(g) + ["BRIDGES" + Joined(WrittenEntries(g), "")]
  {
    LinesRunTogether(g);
    FilterHeading(g);
    WrittenLinesAreParenthesised(g);
    var last := "BRIDGES" + Joined(WrittenEntries(g), "");
    assert last[0] == 'B';
    FilterSavedRunTogether(HeaderLines(g), ["FIELD", FieldLineOf(g), "ISLANDS"], WrittenIslands(g), last);
  }

  // ----- loading the kept lines -----

  /** List.indexOf finds the first occurrence. */
  lemma IndexOfAt(xs: seq<string>, x: string, i: nat)
    requires i < |xs| && xs[i] == x && x !in xs[..i]
    ensures IndexOf(xs, x) == i
  {
  }

  /** Where the sections of the kept lines of a saved board stand. */
  lemma SectionsOfSaved(field: string, islandLines: seq<string>, bridgeLines: seq<string>)
    requires |islandLines| > 0 && field != "ISLANDS" && field != "BRIDGES"
    requires forall k :: 0 <= k < |islandLines| ==> islandLines[k] != "BRIDGES"
    ensures var lines := ["FIELD", field, "ISLANDS"] + islandLines + ["BRIDGES"] + bridgeLines;
            var end := 3 + |islandLines|;
            IslandSection(lines) == Some((3, end)) && lines[1] == field
            && lines[3..end] == islandLines && BridgeLines(lines, end) == bridgeLines
  {
    var lines := ["FIELD", field, "ISLANDS"] + islandLines + ["BRIDGES"] + bridgeLines;
    var end := 3 + |islandLines|;
    IndexOfAt(lines, "FIELD", 0);
    assert lines[..2] == ["FIELD", field];
    IndexOfAt(lines, "ISLANDS", 2);
    assert lines[..end] == ["FIELD", field, "ISLANDS"] + islandLines;
    IndexOfAt(lines, "BRIDGES", end);
    assert lines[3..end] == islandLines;
    assert lines[end + 1..] == bridgeLines;
  }

  /** The kept lines of a file with an island section, a BRIDGES line and
      bridge lines load as the board their parts describe. */
  lemma LoadSections(field: string, islandLines: seq<string>, bridgeLines: seq<string>,
                     f: Field, islands: seq<Island>, bridges: seq<Bridge>)
    requires |islandLines| > 0 && field != "ISLANDS" && field != "BRIDGES"
    requires forall k :: 0 <= k < |islandLines| ==> islandLines[k] != "BRIDGES"
    requires ParseFieldDefinition(field) == Ok(f)
    requires ParseIslands(islandLines) == Ok(islands)
    requires ParseBridges(bridgeLines, islands) == Ok(bridges)
    ensures LoadFiltered(["FIELD", field, "ISLANDS"] + islandLines + ["BRIDGES"] + bridgeLines)
            == Ok(GameData(f.nrOfRows, f.nrOfColumns, f.nrOfIslands, AttachAll(islands, bridges), bridges))
  {
    SectionsOfSaved(field, islandLines, bridgeLines);
  }

  /** A kept line after the island lines that is not the BRIDGES line and is
      not an island definition makes the load fail. */
  lemma LoadFailsAfterIslands(field: string, islandLines: seq<string>, last: string)
    requires field != "BRIDGES" && last != "BRIDGES" && !StartsWith(last, "(")
    requires forall k :: 0 <= k < |islandLines| ==> islandLines[k] != "BRIDGES"
    ensures LoadFiltered(["FIELD", field, "ISLANDS"] + islandLines + [last]).Err?
  {
    var lines := ["FIELD", field, "ISLANDS"] + islandLines + [last];
    assert "BRIDGES" !in lines;
    if IslandSection(lines).Some? {
      assert IslandSection(lines) == Some((3, |lines|));
      assert lines[3..|lines|] == islandLines + [last];
      var results := IslandResults(islandLines + [last]);
      CollectAllSpec(results);
      assert results[|islandLines|] == ParseIslandDefinition(last);
    }
  }

  // ----- a saved board, reloaded -----

  /** A board the format can hold: its numbers fit a Java int, and its
      bridges join islands of the board. */
  predicate Savable(g: GameData) {
    IsInt32(g.nrOfRows) && IsInt32(g.nrOfColumns) && IsInt32(g.nrOfIslands) && IsInt32(|g.islands|)
    && (forall i :: 0 <= i < |g.islands| ==>
          IsInt32(g.islands[i].row) && IsInt32(g.islands[i].column) && IsInt32(g.islands[i].bridgeCapacity))
    && AllEndsIn(g.bridges, |g.islands|)
  }

  /** Every island is written once, every bridge is written once. */
  lemma WrittenOnce(g: GameData)
    ensures multiset(IslandOrder(g)) == multiset(Positions(|g.islands|))
    ensures multiset(BridgeOrder(g)) == multiset(Positions(|g.bridges|))
    ensures forall i :: 0 <= i < |g.islands| ==> i in IslandOrder(g)
  {
    SortedOrderSpec(IslandKeys(g.islands));
    SortedOrderSpec(BridgeKeys(g.bridges, IslandOrder(g)));
  }

  /** The place of island i among the written islands. */
  lemma WrittenPlace(g: GameData, i: nat)
    requires i < |g.islands|
    ensures 0 <= IndexOf(IslandOrder(g), i) < |g.islands| && IslandOrder(g)[IndexOf(IslandOrder(g), i)] == i
  {
    WrittenOnce(g);
  }

  /** The islands as they are read back, in the order they were written:
      new islands with the saved rows, columns and capacities. */
  function ReloadedIslands(g: GameData): (r: seq<Island>)
    ensures |r| == |g.islands|
  {
    var io := IslandOrder(g);
    seq(|io|, k requires 0 <= k < |io| =>
      NewIsland(g.islands[io[k]].row, g.islands[io[k]].column, g.islands[io[k]].bridgeCapacity))
  }

  /** A saved bridge as it is read back: the bridge between the places of its
      ends among the written islands. */
  function ReloadedBridge(g: GameData, b: Bridge): Bridge
    requires EndsIn(b, |g.islands|)
  {
    WrittenPlace(g, b.island1);
    WrittenPlace(g, b.island2);
    var e := EntryOf(b, IslandOrder(g));
    OrderedBridge(ReloadedIslands(g), e.index1, e.index2, e.isDoubleBridge)
  }

  /** The bridges as they are read back, in the order they were written. */
  function ReloadedBridges(g: GameData): (r: seq<Bridge>)
    requires AllEndsIn(g.bridges, |g.islands|)
    ensures |r| == |g.bridges|
  {
    var bo := BridgeOrder(g);
    seq(|bo|, k requires 0 <= k < |bo| => ReloadedBridge(g, g.bridges[bo[k]]))
  }

  /** A run of steps that all succeed succeeds with their values. */
  lemma CollectAllOfOks<X>(rs: seq<Result<X>>, xs: seq<X>)
    requires |rs| == |xs| && forall k :: 0 <= k < |rs| ==> rs[k] == Ok(xs[k])
    ensures CollectAll(rs) == Ok(xs)
  {
    CollectAllSpec(rs);
    assert CollectAll(rs).Ok?;
    var value := CollectAll(rs).value;
    assert forall k :: 0 <= k < |rs| ==> value[k] == xs[k];
    assert value == xs;
  }

  /** The island lines read back as the reloaded islands. */
  lemma ParseWrittenIslands(g: GameData)
    requires Savable(g)
    ensures ParseIslands(WrittenIslands(g)) == Ok(ReloadedIslands(g))
  {
    var io := IslandOrder(g);
    var rs := IslandResults(WrittenIslands(g));
    forall k | 0 <= k < |rs| ensures rs[k] == Ok(ReloadedIslands(g)[k]) {
      IslandLineRoundTrip(g.islands[io[k]]);
    }
    CollectAllOfOks(rs, ReloadedIslands(g));
  }

  /** A non-empty sequence is its front followed by its last element. */
  lemma LastApart<T>(xs: seq<T>)
    requires |xs| > 0
    ensures xs == xs[..|xs| - 1] + [xs[|xs| - 1]]
  {
  }

  /** Bridge lines that all describe bridges load as those bridges. */
  lemma {:induction false} ParseBridgesOfOks(lines: seq<string>, islands: seq<Island>, bridges: seq<Bridge>)
    requires |lines| == |bridges|
    requires forall k :: 0 <= k < |lines| ==> BridgeRelation(lines[k], islands) == Ok(bridges[k])
    ensures ParseBridges(lines, islands) == Ok(bridges)
  {
    if lines != [] {
      var n := |lines| - 1;
      var init := lines[..n];
      assert forall k :: 0 <= k < n ==> init[k] == lines[k];
      var before := bridges[..n];
      ParseBridgesOfOks(init, islands, before);
      assert BridgeRelation(lines[n], islands) == Ok(bridges[n]);
      assert ParseBridges(lines, islands) == Ok(before + [bridges[n]]);
      LastApart(bridges);
    }
  }

  /** Each written entry reads back as the reloaded bridge. */
  lemma ParseWrittenEntry(g: GameData, k: nat)
    requires Savable(g) && k < |g.bridges|
    ensures BridgeRelation(WrittenEntries(g)[k], ReloadedIslands(g)) == Ok(ReloadedBridges(g)[k])
  {
    var io := IslandOrder(g);
    var bo := BridgeOrder(g);
    var b := g.bridges[bo[k]];
    WrittenPlace(g, b.island1);
    WrittenPlace(g, b.island2);
    var e := EntryOf(b, io);
    EntryRoundTrip(e);
  }

  /** The bridge lines read back as the reloaded bridges. */
  lemma ParseWrittenEntries(g: GameData)
    requires Savable(g)
    ensures ParseBridges(WrittenEntries(g), ReloadedIslands(g)) == Ok(ReloadedBridges(g))
  {
    forall k | 0 <= k < |g.bridges|
      ensures BridgeRelation(WrittenEntries(g)[k], ReloadedIslands(g)) == Ok(ReloadedBridges(g)[k])
    {
      ParseWrittenEntry(g, k);
    }
    ParseBridgesOfOks(WrittenEntries(g), ReloadedIslands(g), ReloadedBridges(g));
  }

  /** The board a saved board loads as: the saved dimensions, the reloaded
      islands with the reloaded bridges attached, and the reloaded bridges. */
  function ReloadedGame(g: GameData): GameData
    requires AllEndsIn(g.bridges, |g.islands|)
  {
    GameData(g.nrOfRows, g.nrOfColumns, g.nrOfIslands,
             AttachAll(ReloadedIslands(g), ReloadedBridges(g)), ReloadedBridges(g))
  }

  /** A reloaded bridge joins the islands saved at its ends' places. */
  predicate SameEnds(loaded: Bridge, saved: Bridge, order: seq<nat>)
    requires loaded.island1 < |order| && loaded.island2 < |order|
  {
    (order[loaded.island1] == saved.island1 && order[loaded.island2] == saved.island2)
    || (order[loaded.island1] == saved.island2 && order[loaded.island2] == saved.island1)
  }

  /** The reloaded islands are the saved islands in the written order, with
      the reloaded bridges attached to them. */
  lemma ReloadedIslandsAreSaved(g: GameData)
    requires AllEndsIn(g.bridges, |g.islands|)
    ensures var r := ReloadedGame(g); var io := IslandOrder(g);
            |r.islands| == |g.islands|
            && forall k :: 0 <= k < |g.islands| ==>
                 r.islands[k].Position() == g.islands[io[k]].Position()
                 && r.islands[k].bridgeCapacity == g.islands[io[k]].bridgeCapacity
                 && r.islands[k].currentNrOfBridges == Degree(r.bridges, k)
  {
    var io := IslandOrder(g);
    var ri := ReloadedIslands(g);
    var rb := ReloadedBridges(g);
    var attached := AttachAll(ri, rb);
    forall k | 0 <= k < |g.islands|
      ensures attached[k].Position() == g.islands[io[k]].Position()
              && attached[k].bridgeCapacity == g.islands[io[k]].bridgeCapacity
              && attached[k].currentNrOfBridges == Degree(rb, k)
    {
      assert ri[k] == NewIsland(g.islands[io[k]].row, g.islands[io[k]].column, g.islands[io[k]].bridgeCapacity);
    }
  }

  /** The reloaded bridges are the saved bridges in the written order, each
      between the places of its ends. */
  lemma ReloadedBridgesAreSaved(g: GameData)
    requires AllEndsIn(g.bridges, |g.islands|)
    ensures var rb := ReloadedBridges(g); var bo := BridgeOrder(g);
            |rb| == |g.bridges| && AllEndsIn(rb, |g.islands|)
            && forall k :: 0 <= k < |g.bridges| ==>
                 SameEnds(rb[k], g.bridges[bo[k]], IslandOrder(g))
                 && rb[k].isDoubleBridge == g.bridges[bo[k]].isDoubleBridge
  {
    var io := IslandOrder(g);
    var bo := BridgeOrder(g);
    var rb := ReloadedBridges(g);
    forall k | 0 <= k < |g.bridges|
      ensures EndsIn(rb[k], |g.islands|) && SameEnds(rb[k], g.bridges[bo[k]], io)
              && rb[k].isDoubleBridge == g.bridges[bo[k]].isDoubleBridge
    {
      var b := g.bridges[bo[k]];
      WrittenPlace(g, b.island1);
      WrittenPlace(g, b.island2);
      assert rb[k] == ReloadedBridge(g, b);
    }
  }

  /** The reloaded board is the saved board with its islands renumbered in
      the written order: every island and every bridge comes back once, at
      the same place, with the same capacity, kind and ends, and the counts
      are the bridges attached. */
  lemma ReloadedGameIsSaved(g: GameData)
    requires AllEndsIn(g.bridges, |g.islands|)
    ensures var r := ReloadedGame(g);
            r.nrOfRows == g.nrOfRows && r.nrOfColumns == g.nrOfColumns && r.nrOfIslands == g.nrOfIslands
    ensures multiset(IslandOrder(g)) == multiset(Positions(|g.islands|))
    ensures multiset(BridgeOrder(g)) == multiset(Positions(|g.bridges|))
    ensures var r := ReloadedGame(g); var io := IslandOrder(g);
            |r.islands| == |g.islands|
            && forall k :: 0 <= k < |g.islands| ==>
                 r.islands[k].Position() == g.islands[io[k]].Position()
                 && r.islands[k].bridgeCapacity == g.islands[io[k]].bridgeCapacity
                 && r.islands[k].currentNrOfBridges == Degree(r.bridges, k)
    ensures var r := ReloadedGame(g); var bo := BridgeOrder(g);
            |r.bridges| == |g.bridges| && AllEndsIn(r.bridges, |g.islands|)
            && forall k :: 0 <= k < |g.bridges| ==>
                 SameEnds(r.bridges[k], g.bridges[bo[k]], IslandOrder(g))
                 && r.bridges[k].isDoubleBridge == g.bridges[bo[k]].isDoubleBridge
  {
    WrittenOnce(g);
    ReloadedIslandsAreSaved(g);
    ReloadedBridgesAreSaved(g);
  }

  /** A field line starts with a digit or a minus sign, so it is neither marker. */
  lemma FieldLineIsNoMarker(g: GameData)
    ensures FieldLineOf(g) != "ISLANDS" && FieldLineOf(g) != "BRIDGES"
  {
    assert FieldLineOf(g)[0] == IntToString(g.nrOfRows)[0];
  }

  /** A board saved with one bridge line per bridge loads back as the
      reloaded board (ReloadedGameIsSaved says how it relates to the saved one). */
  lemma SavedGameReloads(g: GameData)
    requires Savable(g) && |g.islands| > 0
    ensures Load(ReadLines(FileText(g, OneLinePerBridge))) == Ok(ReloadedGame(g))
  {
    FilteredPerLine(g);
    FieldLineIsNoMarker(g);
    FieldLineRoundTrip(g.nrOfRows, g.nrOfColumns, g.nrOfIslands);
    ParseWrittenIslands(g);
    ParseWrittenEntries(g);
    WrittenLinesAreParenthesised(g);
    ParenthesisedAreContent(WrittenIslands(g));
    LoadSections(FieldLineOf(g), WrittenIslands(g), WrittenEntries(g),
                 Field(g.nrOfRows, g.nrOfColumns, g.nrOfIslands), ReloadedIslands(g), ReloadedBridges(g));
  }

  /** The loader keeps the island count of the field line whatever the number
      of island lines: a saved board loads with its declared count and all of
      its islands, whether or not the two agree. */
  lemma LoadKeepsDeclaredCount(g: GameData)
    requires Savable(g) && |g.islands| > 0
    ensures var r := Load(ReadLines(FileText(g, OneLinePerBridge)));
            r.Ok? && r.value.nrOfIslands == g.nrOfIslands && |r.value.islands| == |g.islands|
  {
    SavedGameReloads(g);
    ReloadedGameIsSaved(g);
  }

  /** Pieces of which the last is not empty join to a non-empty string. */
  lemma JoinedNotEmpty(pieces: seq<string>, separator: string)
    requires |pieces| > 0 && pieces[|pieces| - 1] != ""
    ensures |Joined(pieces, separator)| > 0
  {
  }

  /** As written, the serialiser puts the BRIDGES marker and all bridge
      entries on one line, and that line fails the load of any board with a
      bridge. */
  lemma SavedBridgesDoNotReload(g: GameData)
    requires |g.bridges| > 0
    ensures Load(ReadLines(FileText(g, RunTogether))).Err?
  {
    FilteredRunTogether(g);
    FieldLineIsNoMarker(g);
    WrittenLinesAreParenthesised(g);
    ParenthesisedAreContent(WrittenIslands(g));
    var entries := WrittenEntries(g);
    assert |entries| == |g.bridges|;
    JoinedNotEmpty(entries, "");
    var last := "BRIDGES" + Joined(entries, "");
    assert last[0] == 'B';
    assert |last| > 7;
    LoadFailsAfterIslands(FieldLineOf(g), WrittenIslands(g), last);
  }

  /** Without entries, the last line of the run-together layout is the marker alone. */
  lemma NoEntriesShape(header: seq<string>, islands: seq<string>, entries: seq<string>)
    requires entries == []
    ensures header + islands + ["", "BRIDGES" + Joined(entries, "")] == header + islands + ["", "BRIDGES"] + entries
  {
    assert "BRIDGES" + Joined(entries, "") == "BRIDGES";
  }

  /** A board without bridges is read as the same lines either way. */
  lemma SameLinesWithoutBridges(g: GameData)
    requires g.bridges == []
    ensures ReadLines(FileText(g, RunTogether)) == ReadLines(FileText(g, OneLinePerBridge))
  {
    LinesRunTogether(g);
    LinesPerLine(g);
    NoEntriesShape(HeaderLines(g), WrittenIslands(g), WrittenEntries(g));
  }

  /** A board without bridges is written the same either way, so it reloads. */
  lemma SavedWithoutBridgesReloads(g: GameData)
    requires Savable(g) && |g.islands| > 0 && g.bridges == []
    ensures Load(ReadLines(FileText(g, RunTogether))) == Ok(ReloadedGame(g))
  {
    SameLinesWithoutBridges(g);
    SavedGameReloads(g);
  }
}
