/** The decision rules of the three adjacency resolvers: which side a door
    attaches to, which segments a wall draws, which neighbour a tagging
    location absorbs, how its extent grows and which wall it faces. The
    resolvers in module World read the grid and are proved to set their
    fields to these values. */
module Adjacency {
  import opened Wrappers

  // ---------------------------------------------------------------------
  // Door

  datatype Side = AttachLeft | AttachRight | AttachUp | AttachDown

  /** The attach side chosen from whether the left, right, upper and lower
      neighbours are walls. */
  function DoorSide(leftIsWall: bool, rightIsWall: bool, upIsWall: bool, downIsWall: bool): (s: Side)
    ensures s == AttachLeft <==> leftIsWall || (!rightIsWall && !upIsWall && !downIsWall)
    ensures s == AttachRight <==> !leftIsWall && rightIsWall
    ensures s == AttachUp <==> !leftIsWall && !rightIsWall && upIsWall
    ensures s == AttachDown <==> !leftIsWall && !rightIsWall && !upIsWall && downIsWall
  {
    if leftIsWall then AttachLeft
    else if rightIsWall then AttachRight
    else if upIsWall then AttachUp
    else if downIsWall then AttachDown
    else AttachLeft
  }

  /** Exactly one of four flags is set: what ComputeTransforms asserts. */
  predicate ExactlyOne(a: bool, b: bool, c: bool, d: bool) {
    (if a then 1 else 0) + (if b then 1 else 0) + (if c then 1 else 0) + (if d then 1 else 0) == 1
  }

  // ---------------------------------------------------------------------
  // Wall

  /** The boolean state Wall.ComputeAdjacency leaves behind. */
  datatype WallFlags = WallFlags(
    connectedLeft: bool, connectedRight: bool, connectedTop: bool, connectedBottom: bool,
    HorizontalDrawEnabled: bool, VerticalDrawEnabled: bool)

  /** The flags from whether each neighbour connects (is a wall or a door). */
  function WallFlagsFor(left: bool, right: bool, top: bool, bottom: bool): (f: WallFlags)
    ensures f.connectedLeft == left && f.connectedRight == right
    ensures f.connectedTop == top && f.connectedBottom == bottom
    ensures f.HorizontalDrawEnabled <==> left || right
    ensures f.VerticalDrawEnabled <==> top || bottom
    ensures DrawsPillar(f) <==> !left && !right && !top && !bottom
  {
    WallFlags(left, right, top, bottom, left || right, top || bottom)
  }

  /** Render's fallback: a pillar when neither segment is drawn. */
  predicate DrawsPillar(f: WallFlags) {
    !f.HorizontalDrawEnabled && !f.VerticalDrawEnabled
  }

  // ---------------------------------------------------------------------
  // Tagging location

  /** A tagging location's rectangle: anchor at the top-left tile. */
  datatype Extent = Extent(tileX: int, tileY: int, tileWidth: int, tileHeight: int) {
    /** Every extent is horizontal or vertical, and a square one is both. */
    predicate IsHorizontal(): (h: bool)
      ensures h || IsVertical()
      ensures h && IsVertical() <==> tileWidth == tileHeight
    {
      tileWidth >= tileHeight
    }

    /** A column one tile wide is vertical. */
    predicate IsVertical(): (v: bool)
      ensures tileWidth == 1 && tileHeight >= 1 ==> v
    {
      tileHeight >= tileWidth
    }
    predicate Covers(x: int, y: int) {
      tileX <= x < tileX + tileWidth && tileY <= y < tileY + tileHeight
    }
    /** The width or the height is 1. */
    predicate IsStrip() { tileWidth == 1 || tileHeight == 1 }
  }

  datatype MergeDirection = MergeLeft | MergeRight | MergeUp | MergeDown

  /** The cell each merge direction examines: outside the extent, in the
      ring of cells around it. */
  function NeighbourCell(e: Extent, d: MergeDirection): (c: (int, int))
    ensures !e.Covers(c.0, c.1)
    ensures e.tileWidth > 0 && e.tileHeight > 0 ==>
              Extent(e.tileX - 1, e.tileY - 1, e.tileWidth + 2, e.tileHeight + 2).Covers(c.0, c.1)
  {
    match d
    case MergeLeft => (e.tileX - 1, e.tileY)
    case MergeRight => (e.tileX + e.tileWidth, e.tileY)
    case MergeUp => (e.tileX, e.tileY - 1)
    case MergeDown => (e.tileX, e.tileY + e.tileHeight)
  }

  /** MergeWithOtherTaggingLocations' choice from whether each examined
      neighbour holds a tagging location: left, then right (horizontal
      only), then up, then down (vertical only). */
  function MergeCandidate(e: Extent, leftIsTag: bool, rightIsTag: bool, upIsTag: bool, downIsTag: bool)
    : (r: Option<MergeDirection>)
    ensures r == Some(MergeLeft) <==> e.IsHorizontal() && leftIsTag
    ensures r == Some(MergeRight) <==> e.IsHorizontal() && !leftIsTag && rightIsTag
    ensures r == Some(MergeUp) <==> !(e.IsHorizontal() && (leftIsTag || rightIsTag)) && e.IsVertical() && upIsTag
    ensures r == Some(MergeDown) <==>
              !(e.IsHorizontal() && (leftIsTag || rightIsTag)) && e.IsVertical() && !upIsTag && downIsTag
    ensures r.None? <==> !(e.IsHorizontal() && (leftIsTag || rightIsTag)) && !(e.IsVertical() && (upIsTag || downIsTag))
  {
    if e.IsHorizontal() && leftIsTag then Some(MergeLeft)
    else if e.IsHorizontal() && rightIsTag then Some(MergeRight)
    else if e.IsVertical() && upIsTag then Some(MergeUp)
    else if e.IsVertical() && downIsTag then Some(MergeDown)
    else None
  }

  datatype CombineError =
    | OtherNotSingleTile   // the Debug.Assert of CombineWith
    | CombinedBothAxes     // the InvalidOperationException of CombineWith

  /** CombineWith on extents: grow along the shared column or row, then
      move the anchor to the componentwise minimum. */
  function Combine(e: Extent, other: Extent): (r: Result<Extent, CombineError>)
    ensures other.tileWidth != 1 || other.tileHeight != 1 ==> r == Failure(OtherNotSingleTile)
    ensures r.Success? ==> r.value.tileX == Min(e.tileX, other.tileX) && r.value.tileY == Min(e.tileY, other.tileY)
    ensures r.Success? ==> r.value.tileWidth + r.value.tileHeight == e.tileWidth + e.tileHeight + 1
  {
    if other.tileWidth != 1 || other.tileHeight != 1 then Failure(OtherNotSingleTile)
    else
      var w := if e.tileX == other.tileX then e.tileWidth else e.tileWidth + other.tileWidth;
      var h := if e.tileX == other.tileX then e.tileHeight + other.tileHeight else e.tileHeight;
      if w > 1 && h > 1 then Failure(CombinedBothAxes)
      else Success(Extent(Min(e.tileX, other.tileX), Min(e.tileY, other.tileY), w, h))
  }

  function Min(a: int, b: int): int { if a <= b then a else b }

  /** Absorbing the single tile at the neighbour cell that the merge rules
      chose keeps a strip a strip (so CombineWith never throws) and makes
      the extent exactly the old rectangle plus that tile. */
  lemma CombineChosenNeighbour(e: Extent, d: MergeDirection, other: Extent)
    requires e.tileWidth >= 1 && e.tileHeight >= 1 && e.IsStrip()
    requires d in {MergeLeft, MergeRight} ==> e.IsHorizontal()
    requires d in {MergeUp, MergeDown} ==> e.IsVertical()
    requires other == Extent(NeighbourCell(e, d).0, NeighbourCell(e, d).1, 1, 1)
    ensures Combine(e, other).Success?
    ensures var n := Combine(e, other).value;
            && n.IsStrip() && n.tileWidth >= 1 && n.tileHeight >= 1
            && n.Covers(other.tileX, other.tileY)
            && (forall x, y :: n.Covers(x, y) <==> e.Covers(x, y) || (x == other.tileX && y == other.tileY))
  {
  }

  /** Three tagging tiles in an L, at (x, y), (x + 1, y) and (x, y + 1),
      processed in layer order, reach the Debug.Assert of CombineWith. The
      tile at (x, y) chooses its right neighbour, absorbs it and becomes a
      2x1 strip that stops merging, since a strip wider than it is tall
      looks only sideways. The tile at (x, y + 1) then chooses the cell
      above it, which that 2x1 strip covers, and so combines with a
      location that is no longer a single tile. */
  lemma LShapeReachesCombineAssert(x: int, y: int)
    ensures MergeCandidate(Extent(x, y, 1, 1), false, true, false, true) == Some(MergeRight)
    ensures NeighbourCell(Extent(x, y, 1, 1), MergeRight) == (x + 1, y)
    ensures Combine(Extent(x, y, 1, 1), Extent(x + 1, y, 1, 1)) == Success(Extent(x, y, 2, 1))
    ensures MergeCandidate(Extent(x, y, 2, 1), false, false, false, true).None?
    ensures MergeCandidate(Extent(x, y + 1, 1, 1), false, false, true, false) == Some(MergeUp)
    ensures NeighbourCell(Extent(x, y + 1, 1, 1), MergeUp) == (x, y) && Extent(x, y, 2, 1).Covers(x, y)
    ensures Combine(Extent(x, y + 1, 1, 1), Extent(x, y, 2, 1)) == Failure(OtherNotSingleTile)
  {
  }

  // ---------------------------------------------------------------------
  // Tagging location wall direction

  datatype WallDirection = Unknown | Up | Down | Left | Right

  /** The wall direction after ComputeAdjacency: a horizontal location
      looks above then below its anchor column, and a vertical one then
      looks left then right of its anchor row, overriding; with no wall
      found the previous direction stays. */
  function ChooseWallDirection(previous: WallDirection, e: Extent,
                               upIsWall: bool, downIsWall: bool, leftIsWall: bool, rightIsWall: bool)
    : (d: WallDirection)
    ensures e.IsVertical() && leftIsWall ==> d == Left
    ensures e.IsVertical() && !leftIsWall && rightIsWall ==> d == Right
    ensures !(e.IsVertical() && (leftIsWall || rightIsWall)) && e.IsHorizontal() && upIsWall ==> d == Up
    ensures !(e.IsVertical() && (leftIsWall || rightIsWall)) && e.IsHorizontal() && !upIsWall && downIsWall ==> d == Down
    ensures (!(e.IsVertical() && (leftIsWall || rightIsWall)) && !(e.IsHorizontal() && (upIsWall || downIsWall)))
            ==> d == previous
  {
    var afterHorizontal :=
      if e.IsHorizontal() && upIsWall then Up
      else if e.IsHorizontal() && downIsWall then Down
      else previous;
    if e.IsVertical() && leftIsWall then Left
    else if e.IsVertical() && rightIsWall then Right
    else afterHorizontal
  }
}
