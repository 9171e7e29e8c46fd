/** An island: a position on the board, the number of bridges it must end up
    with, and the number of bridges attached to it right now (Island.java). */
module Islands {
  import opened JavaStrings

  /** A cell of the board. */
  datatype Pos = Pos(row: int, column: int)

  /** The board keeps its islands in a list and addresses them by position in
      that list; row and column never change once the island exists. */
  datatype Island = Island(row: int, column: int, bridgeCapacity: int, currentNrOfBridges: int)
  {
    function Position(): Pos {
      Pos(row, column)
    }

    /** Bridges that can still be attached: the total capacity less the bridges attached now. */
    function CurrentBridgeCapacity(): (r: int)
      ensures r + currentNrOfBridges == bridgeCapacity
    {
      bridgeCapacity - currentNrOfBridges
    }

    /** setCurrentNrOfBridges: only the count of attached bridges changes. */
    function SetCurrentNrOfBridges(n: int): (r: Island)
      ensures r.currentNrOfBridges == n
      ensures r.Position() == Position() && r.bridgeCapacity == bridgeCapacity
      ensures r.CurrentBridgeCapacity() == bridgeCapacity - n
    {
      this.(currentNrOfBridges := n)
    }

    /** setBridgeCapacity: only the total capacity changes. */
    function SetBridgeCapacity(c: int): (r: Island)
      ensures r.bridgeCapacity == c
      ensures r.Position() == Position() && r.currentNrOfBridges == currentNrOfBridges
    {
      this.(bridgeCapacity := c)
    }
  }

  /** The constructor Island(row, column, bridgeCapacity): no bridge is attached yet. */
  function NewIsland(row: int, column: int, bridgeCapacity: int): (i: Island)
    ensures i.Position() == Pos(row, column) && i.bridgeCapacity == bridgeCapacity
    ensures i.currentNrOfBridges == 0 && i.CurrentBridgeCapacity() == bridgeCapacity
  {
    Island(row, column, bridgeCapacity, 0)
  }

  /** toFileFormat: "( row, column | capacity )". */
  function ToFileFormat(i: Island): (s: string)
    ensures StartsWith(s, "( ") && EndsWith(s, " )")
  {
    "( " + IntToString(i.row) + ", " + IntToString(i.column) + " | " + IntToString(i.bridgeCapacity) + " )"
  }

  /** The line written for Island(10, 5, 4) starts with the row; the test of the
      original expects "( 5, 10 | 4 )", column first, and the code disagrees. */
  lemma ToFileFormatRowFirst()
    ensures ToFileFormat(NewIsland(10, 5, 4)) == "( 10, 5 | 4 )"
  {
    assert NatToString(10) == NatToString(1) + [DigitChar(0)];
  }
}
