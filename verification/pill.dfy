/** The Dr-Mario pill: two halves and an orientation. A hidden pill is off
    the board; a new pill appears horizontally at the top; a pill can move
    down when the tiles under it are on the board and empty.

    The program keeps the halves as pointers to entities; here they are the
    entities' values. The start tile comes from config.h, which is not part
    of this model: column 3 of row 0. */
module Pill {
  import opened Common
  import opened DrMarioBoard

  const PILL_START_X: nat := 3
  const PILL_START_Y: nat := 0
  const HIDDEN: nat := 255

  datatype Orientation = Horizontal | Vertical | Single | EmptyOrientation

  datatype Pill = Pill(half1: Entity, half2: Entity, orientation: Orientation)

  /** pill_initHidden: both halves empty and colourless at (255, 255). */
  function InitHidden(p: Pill): (r: Pill)
    ensures r.orientation == EmptyOrientation
    ensures r.half1 == r.half2 == Entity(EmptyEntity, Location(HIDDEN, HIDDEN), EmptyColor)
    ensures !InBounds(r.half1.location) && !InBounds(r.half2.location)
  {
    var hidden := Entity(EmptyEntity, Location(HIDDEN, HIDDEN), EmptyColor);
    Pill(hidden, hidden, EmptyOrientation)
  }

  /** The colour entity_randomizeColor gives a pill half: as the program
      writes it when `intendedColors` is false, as intended otherwise. */
  function HalfColor(e: Entity, draw: nat, intendedColors: bool): Entity {
    if intendedColors then RandomizeColor(e, draw) else RandomizeColorAsWritten(e, draw)
  }

  /** pill_initTop: two pill halves side by side at the start tile,
      horizontal, stored on the board; no other tile changes. As written
      both halves are yellow whatever the draws; with the intended colour
      draw each half takes the colour its draw selects. */
  function InitTop(t: Tiles, draw1: nat, draw2: nat, intendedColors: bool): (r: (Pill, Tiles))
    requires WellFormed(t)
    ensures WellFormed(r.1)
    ensures r.0.orientation == Horizontal
    ensures r.0.half1.kind == PillHalf && r.0.half2.kind == PillHalf
    ensures r.0.half1.location == Location(PILL_START_X, PILL_START_Y)
    ensures r.0.half2.location == Location(PILL_START_X + 1, PILL_START_Y)
    ensures !intendedColors ==> r.0.half1.color == Yellow && r.0.half2.color == Yellow
    ensures intendedColors ==> r.0.half1.color == COLORS[draw1 % NUM_COLORS] && r.0.half2.color == COLORS[draw2 % NUM_COLORS]
    ensures Tile(r.1, r.0.half1.location) == Some(r.0.half1)
    ensures Tile(r.1, r.0.half2.location) == Some(r.0.half2)
    ensures forall m :: InBounds(m) && m != r.0.half1.location && m != r.0.half2.location ==> Tile(r.1, m) == Tile(t, m)
  {
    var start1 := Location(PILL_START_X, PILL_START_Y);
    var start2 := Location(PILL_START_X + 1, PILL_START_Y);
    var e1 := Entity(PillHalf, start1, EmptyColor);
    var e2 := Entity(PillHalf, start2, EmptyColor);
    AsWrittenAlwaysYellow(e1, draw1);
    AsWrittenAlwaysYellow(e2, draw2);
    var h1 := HalfColor(e1, draw1, intendedColors);
    var h2 := HalfColor(e2, draw2, intendedColors);
    (Pill(h1, h2, Horizontal), SetTile(SetTile(t, start1, Some(h1)), start2, Some(h2)))
  }

  /** The row under `y`, as the program's uint8 computes it. */
  function Below(y: nat): nat {
    (y + 1) % U8_MODULUS
  }

  /** The tiles pill_canMoveDown reads are on the board. */
  predicate ReadsInBounds(p: Pill) {
    match p.orientation
    case Horizontal =>
      p.half1.location.x < WIDTH &&
      (Below(p.half1.location.y) < HEIGHT ==> p.half2.location.x < WIDTH && Below(p.half2.location.y) < HEIGHT)
    case Vertical => p.half2.location.x < WIDTH
    case Single => p.half1.location.x < WIDTH
    case EmptyOrientation => false
  }

  /** pill_canMoveDown. It reads the pill and the board and changes
      neither. */
  function CanMoveDown(p: Pill, t: Tiles): (r: bool)
    requires WellFormed(t) && ReadsInBounds(p)
    ensures r && p.orientation != Vertical ==>
              Below(p.half1.location.y) < HEIGHT &&
              Tile(t, Location(p.half1.location.x, Below(p.half1.location.y))).None?
    ensures r && p.orientation != Single ==>
              Below(p.half2.location.y) < HEIGHT &&
              Tile(t, Location(p.half2.location.x, Below(p.half2.location.y))).None?
  {
    match p.orientation
    case Horizontal =>
      var below1 := Location(p.half1.location.x, Below(p.half1.location.y));
      var below2 := Location(p.half2.location.x, Below(p.half2.location.y));
      if below1.y >= HEIGHT then false
      else if Tile(t, below1).Some? then false
      else if Tile(t, below2).Some? then false
      else true
    case Vertical =>
      var below2 := Location(p.half2.location.x, Below(p.half2.location.y));
      if below2.y >= HEIGHT then false
      else if Tile(t, below2).Some? then false
      else true
    case Single =>
      var below1 := Location(p.half1.location.x, Below(p.half1.location.y));
      if below1.y >= HEIGHT then false
      else if Tile(t, below1).Some? then false
      else true
  }

  /** The tile directly under `l` exists and is empty. */
  predicate FreeBelow(t: Tiles, l: Location)
    requires WellFormed(t)
  {
    l.x < WIDTH && l.y + 1 < HEIGHT && Tile(t, Location(l.x, l.y + 1)).None?
  }

  /** For a pill on the board, CanMoveDown means: the tile under each half
      that the orientation checks is free. A horizontal pill whose halves
      share a row checks both, a vertical one only the lower half (half 2),
      a single one its only half. */
  lemma CanMoveDownMeansFreeBelow(p: Pill, t: Tiles)
    requires WellFormed(t) && ReadsInBounds(p)
    requires InBounds(p.half1.location) && InBounds(p.half2.location)
    requires p.orientation == Horizontal ==> p.half1.location.y == p.half2.location.y
    ensures p.orientation == Horizontal ==>
              (CanMoveDown(p, t) <==> FreeBelow(t, p.half1.location) && FreeBelow(t, p.half2.location))
    ensures p.orientation == Vertical ==> (CanMoveDown(p, t) <==> FreeBelow(t, p.half2.location))
    ensures p.orientation == Single ==> (CanMoveDown(p, t) <==> FreeBelow(t, p.half1.location))
  {
  }

  /** A pill in the bottom row cannot move down. */
  lemma BottomRowBlocks(p: Pill, t: Tiles)
    requires WellFormed(t) && ReadsInBounds(p)
    requires p.orientation == Vertical ==> p.half2.location.y == HEIGHT - 1
    requires p.orientation != Vertical ==> p.half1.location.y == HEIGHT - 1
    ensures !CanMoveDown(p, t)
  {
  }

  /** A new pill can always make its first move down on a board of freshly
      placed viruses, since viruses stay below the cutoff row. */
  lemma NewPillCanMoveDown(t: Tiles, placed: seq<Entity>, draw1: nat, draw2: nat, intendedColors: bool)
    requires Placement(t, placed)
    ensures
      var (p, t1) := InitTop(t, draw1, draw2, intendedColors);
      ReadsInBounds(p) && CanMoveDown(p, t1)
  {
    var (p, t1) := InitTop(t, draw1, draw2, intendedColors);
    PlacementSparesTop(t, placed, Location(PILL_START_X, PILL_START_Y + 1));
    PlacementSparesTop(t, placed, Location(PILL_START_X + 1, PILL_START_Y + 1));
  }
}
