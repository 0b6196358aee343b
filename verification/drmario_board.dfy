/** The Dr-Mario board: a grid of tiles indexed [x][y], each empty or
    holding an entity (a virus or a pill half) with its location and colour.

    The program stores pointers to entities in the tiles; here a tile holds
    the entity's value. The dimensions, the virus cutoff row and the virus
    count come from config.h, which is not part of this model: an 8 by 16
    board, viruses in rows 5 to 15, twelve viruses. The `rand()` calls are
    draw parameters. */
module DrMarioBoard {
  import opened Common

  const WIDTH: nat := 8
  const HEIGHT: nat := 16
  const VIRUS_TOP_CUTOFF: nat := 5
  const NUM_VIRUSES: nat := 12
  const NUM_COLORS: nat := 3
  const PER_COLOR: nat := NUM_VIRUSES / 3

  datatype EntityType = EmptyEntity | PillHalf | Virus

  datatype Color = EmptyColor | Red | Blue | Yellow

  /** The colours in the order of the program's colour table. */
  const COLORS: seq<Color> := [Red, Blue, Yellow]

  /** A tile position; both coordinates are uint8. */
  datatype Location = Location(x: nat, y: nat)

  datatype Entity = Entity(kind: EntityType, location: Location, color: Color)

  type Tiles = seq<seq<Option<Entity>>>

  predicate WellFormed(t: Tiles) {
    |t| == WIDTH && forall x :: 0 <= x < |t| ==> |t[x]| == HEIGHT
  }

  predicate InBounds(l: Location) {
    l.x < WIDTH && l.y < HEIGHT
  }

  /** The rows a virus may occupy. */
  predicate InVirusRegion(l: Location) {
    l.x < WIDTH && VIRUS_TOP_CUTOFF <= l.y < HEIGHT
  }

  function Tile(t: Tiles, l: Location): Option<Entity>
    requires WellFormed(t) && InBounds(l)
  {
    t[l.x][l.y]
  }

  /** Store `v` at `l`; no other tile changes. */
  function SetTile(t: Tiles, l: Location, v: Option<Entity>): (r: Tiles)
    requires WellFormed(t) && InBounds(l)
    ensures WellFormed(r)
    ensures Tile(r, l) == v
    ensures forall m :: InBounds(m) && m != l ==> Tile(r, m) == Tile(t, m)
  {
    t[l.x := t[l.x][l.y := v]]
  }

  /** board_initEmpty: every tile empty. */
  function InitEmpty(): (t: Tiles)
    ensures WellFormed(t)
    ensures forall l :: InBounds(l) ==> Tile(t, l).None?
  {
    seq(WIDTH, _ => seq(HEIGHT, _ => None))
  }

  /** entity_initVirus: a virus of that colour, knowing its location, at
      that tile; nothing else changes. */
  function InitVirus(t: Tiles, l: Location, c: Color): (r: Tiles)
    requires WellFormed(t) && InBounds(l)
    ensures WellFormed(r)
    ensures Tile(r, l) == Some(Entity(Virus, l, c))
    ensures forall m :: InBounds(m) && m != l ==> Tile(r, m) == Tile(t, m)
  {
    SetTile(t, l, Some(Entity(Virus, l, c)))
  }

  /** The colour after the `switch` of entity_randomizeColor, entered at
      case `k` with the colour `c`: the cases have no `break`, so every
      later case's assignment runs too. */
  function FallThrough(k: nat, c: Color): Color
    decreases NUM_COLORS - k
  {
    if k >= NUM_COLORS then c else FallThrough(k + 1, COLORS[k])
  }

  /** entity_randomizeColor as written. */
  function RandomizeColorAsWritten(e: Entity, draw: nat): (r: Entity)
    ensures r == e.(color := r.color) && r.color in COLORS
  {
    e.(color := FallThrough(draw % NUM_COLORS, e.color))
  }

  /** As written, every draw gives yellow. */
  lemma {:induction false} AsWrittenAlwaysYellow(e: Entity, draw: nat)
    ensures RandomizeColorAsWritten(e, draw).color == Yellow
  {
    var k := draw % NUM_COLORS;
    if k == 0 {
      assert FallThrough(0, e.color) == FallThrough(1, Red) == FallThrough(2, Blue) == FallThrough(3, Yellow);
    } else if k == 1 {
      assert FallThrough(1, e.color) == FallThrough(2, Blue) == FallThrough(3, Yellow);
    } else {
      assert FallThrough(2, e.color) == FallThrough(3, Yellow);
    }
  }

  /** entity_randomizeColor as intended: the colour the draw selects. */
  function RandomizeColor(e: Entity, draw: nat): (r: Entity)
    ensures r.color in COLORS && r == e.(color := r.color)
  {
    e.(color := COLORS[draw % NUM_COLORS])
  }

  /** Each colour is drawn by exactly the draws in its residue class, so all
      three occur; as written, a draw of 0 gives yellow instead of red. */
  lemma RandomizeColorCoversColors(e: Entity, draw: nat)
    ensures RandomizeColor(e, draw).color == Red <==> draw % 3 == 0
    ensures RandomizeColor(e, draw).color == Blue <==> draw % 3 == 1
    ensures RandomizeColor(e, draw).color == Yellow <==> draw % 3 == 2
    ensures RandomizeColorAsWritten(e, 0).color != RandomizeColor(e, 0).color
  {
    AsWrittenAlwaysYellow(e, 0);
  }

  /** entity_move: the old tile is cleared when it is on the board, then the
      entity, with its new location, is stored at the target. */
  function EntityMove(t: Tiles, e: Entity, l: Location): (r: (Tiles, Entity))
    requires WellFormed(t) && InBounds(l)
    ensures WellFormed(r.0)
    ensures r.1 == e.(location := l)
    ensures Tile(r.0, l) == Some(r.1)
    ensures InBounds(e.location) && e.location != l ==> Tile(r.0, e.location).None?
    ensures forall m :: InBounds(m) && m != l && m != e.location ==> Tile(r.0, m) == Tile(t, m)
    ensures !InBounds(e.location) ==> forall m :: InBounds(m) && m != l ==> Tile(r.0, m) == Tile(t, m)
  {
    var cleared := if InBounds(e.location) then SetTile(t, e.location, None) else t;
    var moved := e.(location := l);
    (SetTile(cleared, l, Some(moved)), moved)
  }

  /** Moving there and back restores an entity that was on its tile, when
      the target was empty. */
  lemma MoveThereAndBack(t: Tiles, e: Entity, l: Location)
    requires WellFormed(t) && InBounds(l) && InBounds(e.location)
    requires Tile(t, e.location) == Some(e) && Tile(t, l).None?
    ensures
      var (t1, e1) := EntityMove(t, e, l);
      EntityMove(t1, e1, e.location) == (t, e)
  {
    var (t1, e1) := EntityMove(t, e, l);
    var (t2, e2) := EntityMove(t1, e1, e.location);
    assert e2 == e;
    forall x | 0 <= x < WIDTH
      ensures t2[x] == t[x]
    {
      forall y | 0 <= y < HEIGHT
        ensures t2[x][y] == t[x][y]
      {
        var m := Location(x, y);
        assert Tile(t2, m) == t2[x][y] && Tile(t, m) == t[x][y];
        if m == l {
          assert Tile(t2, m).None?;
        } else if m != e.location {
          assert Tile(t2, m) == Tile(t1, m) == Tile(t, m);
        }
      }
    }
    assert t2 == t;
  }

  /** The random values of one placement attempt of board_initViruses. */
  datatype VirusDraw = VirusDraw(x: nat, y: nat)

  /** The location an attempt picks: any column, a row below the cutoff. */
  function DrawnLocation(d: VirusDraw): (l: Location)
    ensures InVirusRegion(l) && InBounds(l)
  {
    Location(d.x % WIDTH, d.y % (HEIGHT - VIRUS_TOP_CUTOFF) + VIRUS_TOP_CUTOFF)
  }

  /** Some placed entity is at `l`. */
  predicate Occupies(placed: seq<Entity>, l: Location) {
    exists k :: 0 <= k < |placed| && placed[k].location == l
  }

  /** The tiles hold exactly the placed viruses, each at its own location,
      the k-th coloured by the colour table in blocks of PER_COLOR. */
  ghost predicate Placement(t: Tiles, placed: seq<Entity>) {
    && WellFormed(t)
    && |placed| <= NUM_COLORS * PER_COLOR
    && (forall k :: 0 <= k < |placed| ==>
          && placed[k].kind == Virus && InVirusRegion(placed[k].location)
          && placed[k].color == COLORS[k / PER_COLOR]
          && Tile(t, placed[k].location) == Some(placed[k]))
    && (forall l :: InBounds(l) && Tile(t, l).Some? ==> Occupies(placed, l))
  }

  /** Placing the next virus on an empty tile of the virus region keeps
      the placement, and its locations distinct. */
  lemma PlaceNext(t: Tiles, placed: seq<Entity>, v: Entity, t': Tiles, placed': seq<Entity>)
    requires Placement(t, placed) && |placed| < NUM_COLORS * PER_COLOR
    requires forall j, k :: 0 <= j < k < |placed| ==> placed[j].location != placed[k].location
    requires v.kind == Virus && InVirusRegion(v.location) && v.color == COLORS[|placed| / PER_COLOR]
    requires Tile(t, v.location).None?
    requires t' == InitVirus(t, v.location, v.color) && placed' == placed + [v]
    ensures Placement(t', placed')
    ensures forall j, k :: 0 <= j < k < |placed'| ==> placed'[j].location != placed'[k].location
  {
    assert forall j :: 0 <= j < |placed| ==> placed[j].location != v.location;
    PlaceNextEntries(t, placed, v);
    PlaceNextOccupied(t, placed, v);
  }

  /** Each placed virus, old or new, is on its tile after the placement. */
  lemma PlaceNextEntries(t: Tiles, placed: seq<Entity>, v: Entity)
    requires Placement(t, placed) && |placed| < NUM_COLORS * PER_COLOR
    requires v.kind == Virus && InVirusRegion(v.location) && v.color == COLORS[|placed| / PER_COLOR]
    requires forall j :: 0 <= j < |placed| ==> placed[j].location != v.location
    ensures
      var t' := InitVirus(t, v.location, v.color);
      var placed' := placed + [v];
      forall k :: 0 <= k < |placed'| ==>
        && placed'[k].kind == Virus && InVirusRegion(placed'[k].location)
        && placed'[k].color == COLORS[k / PER_COLOR]
        && Tile(t', placed'[k].location) == Some(placed'[k])
  {
    var t' := InitVirus(t, v.location, v.color);
    var placed' := placed + [v];
    forall k | 0 <= k < |placed'|
      ensures && placed'[k].kind == Virus && InVirusRegion(placed'[k].location)
              && placed'[k].color == COLORS[k / PER_COLOR]
              && Tile(t', placed'[k].location) == Some(placed'[k])
    {
      if k < |placed| {
        assert placed'[k] == placed[k];
        assert Tile(t', placed[k].location) == Tile(t, placed[k].location);
      } else {
        assert placed'[k] == v;
      }
    }
  }

  /** After the placement every occupied tile holds a placed virus. */
  lemma PlaceNextOccupied(t: Tiles, placed: seq<Entity>, v: Entity)
    requires Placement(t, placed) && InBounds(v.location)
    ensures
      var t' := InitVirus(t, v.location, v.color);
      forall m :: InBounds(m) && Tile(t', m).Some? ==> Occupies(placed + [v], m)
  {
    var t' := InitVirus(t, v.location, v.color);
    var placed' := placed + [v];
    forall m | InBounds(m) && Tile(t', m).Some?
      ensures Occupies(placed', m)
    {
      if m == v.location {
        assert placed'[|placed|].location == m;
      } else {
        var k :| 0 <= k < |placed| && placed[k].location == m;
        assert placed'[k].location == m;
      }
    }
  }

  /** The first `used` draws are accounted for: each drawn tile holds a
      placed virus, and each placed virus sits on a drawn tile. */
  ghost predicate DrawsCovered(draws: seq<VirusDraw>, used: nat, placed: seq<Entity>)
    requires used <= |draws|
  {
    && (forall i :: 0 <= i < used ==> Occupies(placed, DrawnLocation(draws[i])))
    && (forall k :: 0 <= k < |placed| ==> exists i :: 0 <= i < used && DrawnLocation(draws[i]) == placed[k].location)
  }

  /** A virus placed on the next drawn tile keeps the draws accounted for. */
  lemma CoverPlaced(draws: seq<VirusDraw>, used: nat, placed: seq<Entity>, v: Entity)
    requires used < |draws| && DrawsCovered(draws, used, placed)
    requires v.location == DrawnLocation(draws[used])
    ensures DrawsCovered(draws, used + 1, placed + [v])
  {
    var placed' := placed + [v];
    forall i | 0 <= i < used + 1
      ensures Occupies(placed', DrawnLocation(draws[i]))
    {
      if i == used {
        assert placed'[|placed|].location == DrawnLocation(draws[i]);
      } else {
        assert Occupies(placed, DrawnLocation(draws[i]));
        var k :| 0 <= k < |placed| && placed[k].location == DrawnLocation(draws[i]);
        assert placed'[k] == placed[k];
      }
    }
    forall k | 0 <= k < |placed'|
      ensures exists i :: 0 <= i < used + 1 && DrawnLocation(draws[i]) == placed'[k].location
    {
      if k == |placed| {
        assert DrawnLocation(draws[used]) == placed'[k].location;
      } else {
        assert placed'[k] == placed[k];
      }
    }
  }

  /** A drawn tile that is already taken is skipped; the virus there came
      from an earlier draw. */
  lemma CoverSkipped(draws: seq<VirusDraw>, used: nat, placed: seq<Entity>)
    requires used < |draws| && DrawsCovered(draws, used, placed)
    requires Occupies(placed, DrawnLocation(draws[used]))
    ensures DrawsCovered(draws, used + 1, placed)
  {
  }

  /** board_initViruses, numbered by attempts rather than by the nested
      colour and count loops: an attempt on an empty tile places the next
      virus, whose colour is the table entry for its block of PER_COLOR;
      an attempt on an occupied tile is repeated with the next draw. The
      loop ends when every colour has its viruses, or, here, when the draws
      run out. The `numViruses` argument is unused by the program and is
      left out. */
  method InitViruses(draws: seq<VirusDraw>) returns (t: Tiles, placed: seq<Entity>, used: nat)
    ensures Placement(t, placed)
    ensures used <= |draws|
    ensures |placed| < NUM_COLORS * PER_COLOR ==> used == |draws|
    ensures forall j, k :: 0 <= j < k < |placed| ==> placed[j].location != placed[k].location
    ensures DrawsCovered(draws, used, placed)
  {
    t := InitEmpty();
    placed := [];
    used := 0;
    while |placed| < NUM_COLORS * PER_COLOR && used < |draws|
      invariant Placement(t, placed)
      invariant used <= |draws|
      invariant forall j, k :: 0 <= j < k < |placed| ==> placed[j].location != placed[k].location
      invariant DrawsCovered(draws, used, placed)
      decreases |draws| - used
    {
      var l := DrawnLocation(draws[used]);
      if Tile(t, l).None? {
        var v := Entity(Virus, l, COLORS[|placed| / PER_COLOR]);
        var t', placed' := InitVirus(t, l, v.color), placed + [v];
        PlaceNext(t, placed, v, t', placed');
        CoverPlaced(draws, used, placed, v);
        t, placed := t', placed';
      } else {
        assert Occupies(placed, l);
        CoverSkipped(draws, used, placed);
      }
      used := used + 1;
    }
  }

  /** A placement leaves the rows above the cutoff empty. */
  lemma PlacementSparesTop(t: Tiles, placed: seq<Entity>, l: Location)
    requires Placement(t, placed) && InBounds(l) && l.y < VIRUS_TOP_CUTOFF
    ensures Tile(t, l).None?
  {
  }

  /** The number of entities of colour `c` in `s`. */
  function ColorCount(s: seq<Entity>, c: Color): (n: nat)
    ensures n <= |s|
  {
    if |s| == 0 then 0 else ColorCount(s[..|s| - 1], c) + (if s[|s| - 1].color == c then 1 else 0)
  }

  /** How many of the indices below `n` fall in block `i` of PER_COLOR. */
  function BlockShare(i: nat, n: nat): nat {
    if n <= i * PER_COLOR then 0
    else if n >= (i + 1) * PER_COLOR then PER_COLOR
    else n - i * PER_COLOR
  }

  lemma BlockShareStep(i: nat, n: nat)
    requires n > 0
    ensures BlockShare(i, n) == BlockShare(i, n - 1) + (if (n - 1) / PER_COLOR == i then 1 else 0)
  {
  }

  /** Colours assigned in blocks of PER_COLOR: the first `n` entities hold
      as many of colour `i` as the part of block `i` below `n`. */
  lemma {:induction false} BlockCount(placed: seq<Entity>, i: nat, n: nat)
    requires i < NUM_COLORS && n <= |placed|
    requires forall k :: 0 <= k < n ==> k / PER_COLOR < NUM_COLORS && placed[k].color == COLORS[k / PER_COLOR]
    ensures ColorCount(placed[..n], COLORS[i]) == BlockShare(i, n)
  {
    if n > 0 {
      BlockCount(placed, i, n - 1);
      var k := n - 1;
      assert placed[..n][..k] == placed[..k];
      assert placed[..n][k] == placed[k];
      assert ColorCount(placed[..n], COLORS[i]) ==
               ColorCount(placed[..k], COLORS[i]) + (if placed[k].color == COLORS[i] then 1 else 0);
      DistinctColors(k / PER_COLOR, i);
      BlockShareStep(i, n);
    }
  }

  lemma DistinctColors(j: nat, i: nat)
    requires j < NUM_COLORS && i < NUM_COLORS
    ensures COLORS[j] == COLORS[i] <==> j == i
  {
  }

  /** A complete placement gives each colour exactly PER_COLOR viruses. */
  lemma CompletePlacementCounts(t: Tiles, placed: seq<Entity>, c: Color)
    requires Placement(t, placed) && |placed| == NUM_COLORS * PER_COLOR && c in COLORS
    ensures ColorCount(placed, c) == PER_COLOR
  {
    var i :| 0 <= i < NUM_COLORS && COLORS[i] == c;
    BlockCount(placed, i, |placed|);
    assert BlockShare(i, |placed|) == PER_COLOR;
    assert placed[..|placed|] == placed;
  }
}
