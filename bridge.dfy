/** A bridge: a single or double connection between two islands (Bridge.java). */
module Bridges {
  import opened Islands

  /** row + column: the Manhattan distance of a cell to the origin (0, 0). */
  function Manhattan(p: Pos): int {
    p.row + p.column
  }

  /** The geometric view of a bridge: its two end cells, in the order the
      constructor puts them. */
  datatype Span = Span(end1: Pos, end2: Pos)

  /** The constructor's ordering of two ends: the end nearer the origin comes
      first, and on a tie the first argument does. */
  function CanonicalSpan(a: Pos, b: Pos): (s: Span)
    ensures Manhattan(s.end1) <= Manhattan(s.end2)
    ensures (s.end1 == a && s.end2 == b) || (s.end1 == b && s.end2 == a)
    ensures Manhattan(a) <= Manhattan(b) ==> s.end1 == a
  {
    if Manhattan(a) <= Manhattan(b) then Span(a, b) else Span(b, a)
  }

  /** A bridge relation between the islands at positions island1 and island2 of
      the board's island list. Two islands are the same island exactly when
      they have the same position in that list, which is what Java's reference
      comparison in `contains` decides. */
  datatype Bridge = Bridge(island1: nat, island2: nat, isDoubleBridge: bool, modifiedLatest: bool)
  {
    /** contains(island): the island is one of the two ends. */
    predicate Contains(i: nat) {
      island1 == i || island2 == i
    }

    /** contains(island1, island2): both islands are ends, in either order. */
    predicate ContainsBoth(i: nat, j: nat) {
      Contains(i) && Contains(j)
    }

    /** setDoubleBridge: only the multiplicity changes. */
    function SetDoubleBridge(d: bool): (r: Bridge)
      ensures r.isDoubleBridge == d
      ensures r.island1 == island1 && r.island2 == island2 && r.modifiedLatest == modifiedLatest
    {
      this.(isDoubleBridge := d)
    }

    /** setModifiedLatest: only the marker changes. */
    function SetModifiedLatest(m: bool): (r: Bridge)
      ensures r.modifiedLatest == m
      ensures r.island1 == island1 && r.island2 == island2 && r.isDoubleBridge == isDoubleBridge
    {
      this.(modifiedLatest := m)
    }

    /** How many bridges this relation attaches to island i: its weight (1, or 2
        for a double bridge) once for each end that is island i. */
    function Attached(i: nat): nat {
      if isDoubleBridge then 2 * Ends(i) else Ends(i)
    }

    /** How many of the two ends are island i (2 for a bridge from an island to itself). */
    function Ends(i: nat): nat {
      (if island1 == i then 1 else 0) + (if island2 == i then 1 else 0)
    }
  }

  /** Both ends of b are islands of a list of n islands. */
  predicate EndsIn(b: Bridge, n: nat) {
    b.island1 < n && b.island2 < n
  }

  function SpanOf(islands: seq<Island>, b: Bridge): Span
    requires EndsIn(b, |islands|)
  {
    Span(islands[b.island1].Position(), islands[b.island2].Position())
  }

  /** islands with d more bridges attached to island k. */
  function AddToCount(islands: seq<Island>, k: nat, d: int): (r: seq<Island>)
    requires k < |islands|
    ensures |r| == |islands|
  {
    islands[k := islands[k].SetCurrentNrOfBridges(islands[k].currentNrOfBridges + d)]
  }

  /** The relation part of new Bridge(islands[a], islands[b], isDoubleBridge, ...):
      the end nearer the origin becomes island1, and on a tie the first argument does. */
  function OrderedBridge(islands: seq<Island>, a: nat, b: nat, isDoubleBridge: bool): (r: Bridge)
    requires a < |islands| && b < |islands|
    ensures EndsIn(r, |islands|)
    ensures (r.island1 == a && r.island2 == b) || (r.island1 == b && r.island2 == a)
    ensures SpanOf(islands, r) == CanonicalSpan(islands[a].Position(), islands[b].Position())
    ensures r.isDoubleBridge == isDoubleBridge && !r.modifiedLatest
  {
    if Manhattan(islands[a].Position()) <= Manhattan(islands[b].Position())
    then Bridge(a, b, isDoubleBridge, false) else Bridge(b, a, isDoubleBridge, false)
  }

  /** new Bridge(islands[a], islands[b], isDoubleBridge, modifyIslandState): the
      new relation, and the island list after the constructor's side effect,
      which attaches the bridge's weight to both ends. */
  function ConstructBridge(islands: seq<Island>, a: nat, b: nat, isDoubleBridge: bool, modifyIslandState: bool)
    : (r: (Bridge, seq<Island>))
    requires a < |islands| && b < |islands|
    ensures r.0 == OrderedBridge(islands, a, b, isDoubleBridge)
    ensures |r.1| == |islands|
    ensures forall k :: 0 <= k < |islands| ==>
              r.1[k] == islands[k].SetCurrentNrOfBridges(
                          islands[k].currentNrOfBridges + if modifyIslandState then r.0.Attached(k) else 0)
  {
    var increment := if isDoubleBridge then 2 else 1;
    var after := if modifyIslandState then AddToCount(AddToCount(islands, a, increment), b, increment) else islands;
    (OrderedBridge(islands, a, b, isDoubleBridge), after)
  }

  /** isHorizontal: both ends lie in the same row. */
  predicate IsHorizontal(s: Span) {
    s.end1.row == s.end2.row
  }

  /** areCrossingBridges: a horizontal and a vertical bridge whose spans meet
      strictly between their ends. */
  predicate AreCrossingBridges(bridge1: Span, bridge2: Span) {
    if IsHorizontal(bridge1) == IsHorizontal(bridge2) then false
    else if IsHorizontal(bridge1) then
      var y := bridge1.end1.row;
      var x := bridge2.end1.column;
      bridge1.end1.column < x < bridge1.end2.column && bridge2.end1.row < y < bridge2.end2.row
    else
      var y := bridge2.end1.row;
      var x := bridge1.end1.column;
      bridge2.end1.column < x < bridge2.end2.column && bridge1.end1.row < y < bridge1.end2.row
  }

  /** A cell strictly between the two ends of a span, on its row when it is
      horizontal and on its column otherwise. */
  predicate StrictlyInside(s: Span, p: Pos) {
    if IsHorizontal(s) then p.row == s.end1.row && s.end1.column < p.column < s.end2.column
    else p.column == s.end1.column && s.end1.row < p.row < s.end2.row
  }

  /** The order of the arguments does not matter. */
  lemma CrossingIsSymmetric(s1: Span, s2: Span)
    ensures AreCrossingBridges(s1, s2) == AreCrossingBridges(s2, s1)
  {
  }

  /** Two horizontal or two vertical bridges never cross, even when they overlap. */
  lemma SameOrientationNeverCrosses(s1: Span, s2: Span)
    requires IsHorizontal(s1) == IsHorizontal(s2)
    ensures !AreCrossingBridges(s1, s2)
  {
  }

  /** A horizontal and a vertical bridge cross exactly when the vertical one's
      column lies strictly between the horizontal one's end columns and the
      horizontal one's row strictly between the vertical one's end rows. */
  lemma CrossingCondition(h: Span, v: Span)
    requires IsHorizontal(h) && !IsHorizontal(v)
    ensures AreCrossingBridges(h, v) <==>
              h.end1.column < v.end1.column < h.end2.column && v.end1.row < h.end1.row < v.end2.row
    ensures AreCrossingBridges(v, h) == AreCrossingBridges(h, v)
  {
  }

  /** Crossing, stated geometrically: bridges of different orientation cross
      exactly when some cell lies strictly inside both of them. */
  lemma CrossingMeansSharedInnerCell(s1: Span, s2: Span)
    requires IsHorizontal(s1) != IsHorizontal(s2)
    ensures AreCrossingBridges(s1, s2) <==> exists p :: StrictlyInside(s1, p) && StrictlyInside(s2, p)
  {
    if AreCrossingBridges(s1, s2) {
      var p := if IsHorizontal(s1) then Pos(s1.end1.row, s2.end1.column) else Pos(s2.end1.row, s1.end1.column);
      assert StrictlyInside(s1, p) && StrictlyInside(s2, p);
    }
  }

  /** The ordering cases of the original's constructor test: the island nearer
      the origin comes first, and on a tie the first argument does. */
  lemma ConstructorOrderCases()
    ensures var a := [Island(0, 1, 0, 0), Island(0, 2, 0, 0), Island(0, 1, 0, 0)];
            OrderedBridge(a, 0, 1, false).island1 == 0
            && OrderedBridge(a, 1, 0, false).island1 == 0
            && OrderedBridge(a, 0, 2, false).island1 == 0
  {
  }

  /** The cases of the original's tests of isHorizontal and areCrossingBridges. */
  lemma CrossingCases()
    ensures IsHorizontal(CanonicalSpan(Pos(5, 10), Pos(5, 5)))
    ensures !IsHorizontal(CanonicalSpan(Pos(10, 5), Pos(5, 5)))
    ensures !AreCrossingBridges(CanonicalSpan(Pos(2, 2), Pos(2, 4)), CanonicalSpan(Pos(1, 2), Pos(1, 2)))
    ensures !AreCrossingBridges(CanonicalSpan(Pos(2, 2), Pos(4, 2)), CanonicalSpan(Pos(2, 1), Pos(4, 3)))
    ensures AreCrossingBridges(CanonicalSpan(Pos(2, 2), Pos(2, 4)), CanonicalSpan(Pos(1, 3), Pos(3, 3)))
    ensures AreCrossingBridges(CanonicalSpan(Pos(2, 2), Pos(4, 2)), CanonicalSpan(Pos(3, 1), Pos(3, 3)))
    ensures !AreCrossingBridges(CanonicalSpan(Pos(2, 2), Pos(2, 4)), CanonicalSpan(Pos(1, 5), Pos(3, 5)))
  {
  }

  /** contains compares identities: the third island, which has the same
      coordinates as the first, is not an end of the bridge between the first two. */
  lemma ContainsComparesIdentity()
    ensures var a := [Island(0, 1, 0, 0), Island(1, 0, 0, 0), Island(0, 1, 0, 0)];
            var b := OrderedBridge(a, 0, 1, false);
            b.Contains(0) && b.Contains(1) && b.ContainsBoth(0, 1) && !b.Contains(2) && !b.ContainsBoth(0, 2)
  {
  }
}
