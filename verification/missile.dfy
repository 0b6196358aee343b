/** A Missile Command missile: enemy, player or plane missile, flying along
    a straight line, then (for the player's, or when triggered) exploding
    in a circle that grows to full size and shrinks away, then dead until it
    is re-initialised.

    The flight length, the interpolated position and the explosion radius
    are computed in floating point in the program. Here they are the
    outcomes a tick is given: whether the missile has reached its
    destination, where it now is, and whether the radius has reached full
    size or faded out. The `rand()` calls are draw parameters. */
module Missile {
  import opened Common
  import Display

  datatype Kind = Player | Enemy | PlaneKind

  datatype State = Flying | ExplosionGrow | ExplosionShrink | Dead

  const ENEMY_ORIGIN_BOTTOM_CUTOFF: nat := 60   // DISPLAY_HEIGHT / 4
  const UINT16_MAX: nat := 0xFFFF

  /** The three player firing points on the bottom edge: W/4, 2(W/4), 3(W/4). */
  const START_POINTS: seq<nat> := [80, 160, 240]

  datatype Missile = Missile(
    kind: Kind,
    state: State,
    xOrigin: int, yOrigin: int,
    xDest: int, yDest: int,
    xCurrent: int, yCurrent: int,
    explodeMe: bool,
    impacted: bool)

  /** missile_init_general: the flight starts at the origin, unflagged. */
  function InitGeneral(m: Missile): (r: Missile)
    ensures r.xCurrent == m.xOrigin && r.yCurrent == m.yOrigin
    ensures !r.explodeMe && !r.impacted
    ensures r.(xCurrent := m.xCurrent, yCurrent := m.yCurrent, explodeMe := m.explodeMe, impacted := m.impacted) == m
  {
    m.(xCurrent := m.xOrigin, yCurrent := m.yOrigin, explodeMe := false, impacted := false)
  }

  /** missile_init_dead: only the state is set. */
  function InitDead(m: Missile): (r: Missile)
    ensures IsDead(r) && r == m.(state := Dead)
  {
    m.(state := Dead)
  }

  /** The raw values of the three `rand()` calls of `missile_init_enemy`. */
  datatype EnemyDraws = EnemyDraws(xOrigin: nat, yOrigin: nat, xDest: nat)

  /** missile_init_enemy. */
  function InitEnemy(m: Missile, d: EnemyDraws): (r: Missile)
    ensures r.kind == Enemy && r.state == Flying
    ensures 0 <= r.xOrigin < Display.WIDTH && 0 <= r.yOrigin < Display.HEIGHT / 4
    ensures 0 <= r.xDest < Display.WIDTH && r.yDest == Display.HEIGHT
    ensures r.xCurrent == r.xOrigin && r.yCurrent == r.yOrigin && !r.explodeMe && !r.impacted
  {
    InitGeneral(m.(kind := Enemy, state := Flying,
                   xOrigin := d.xOrigin % Display.WIDTH as nat,
                   yOrigin := d.yOrigin % ENEMY_ORIGIN_BOTTOM_CUTOFF,
                   xDest := d.xDest % Display.WIDTH as nat,
                   yDest := Display.HEIGHT))
  }

  function Dist(a: int, b: int): nat {
    if a < b then b - a else a - b
  }

  /** The firing-point loop of missile_init_player from iteration `i` on,
      with the lowest distance seen and the origin chosen so far. */
  function NearestFrom(x: nat, i: nat, lowest: nat, origin: int): (r: int)
    requires i <= |START_POINTS|
    ensures r == origin || r in START_POINTS[i..]
    decreases |START_POINTS| - i
  {
    if i == |START_POINTS| then origin
    else if Dist(x, START_POINTS[i]) < lowest then NearestFrom(x, i + 1, Dist(x, START_POINTS[i]), START_POINTS[i])
    else NearestFrom(x, i + 1, lowest, origin)
  }

  /** The point `k` the loop chooses: every earlier point is strictly
      farther and every point is at least as far. */
  predicate LeftmostNearest(x: nat, k: nat)
  {
    && k < |START_POINTS|
    && (forall j :: 0 <= j < |START_POINTS| ==> Dist(x, START_POINTS[k]) <= Dist(x, START_POINTS[j]))
    && (forall j :: 0 <= j < k ==> Dist(x, START_POINTS[k]) < Dist(x, START_POINTS[j]))
  }

  /** Starting below every distance, the loop lands on the leftmost nearest
      firing point, whatever the origin held before. */
  lemma NearestIsLeftmostNearest(x: nat, origin: int)
    requires x <= UINT16_MAX
    ensures exists k: nat :: LeftmostNearest(x, k) && NearestFrom(x, 0, UINT16_MAX, origin) == START_POINTS[k]
  {
    var d0, d1, d2 := Dist(x, 80), Dist(x, 160), Dist(x, 240);
    if d1 < d0 && d2 < d1 {
      assert LeftmostNearest(x, 2);
    } else if d1 < d0 {
      assert LeftmostNearest(x, 1);
    } else {
      assert LeftmostNearest(x, 0);
    }
  }

  /** The same choice by thresholds: the first point up to 120, the second
      up to 200, the third beyond; the midpoints go left. */
  lemma NearestByThresholds(x: nat, origin: int)
    requires x <= UINT16_MAX
    ensures NearestFrom(x, 0, UINT16_MAX, origin) ==
              if x <= 120 then 80 else if x <= 200 then 160 else 240
  {
  }

  /** missile_init_player: from the bottom edge at the firing point nearest
      the touched destination. */
  function InitPlayer(m: Missile, xDest: nat, yDest: nat): (r: Missile)
    requires xDest <= UINT16_MAX && yDest <= UINT16_MAX
    ensures r.kind == Player && r.state == Flying
    ensures r.yOrigin == Display.HEIGHT
    ensures exists k: nat :: LeftmostNearest(xDest, k) && r.xOrigin == START_POINTS[k]
    ensures r.xDest == xDest && r.yDest == yDest
    ensures r.xCurrent == r.xOrigin && r.yCurrent == r.yOrigin && !r.explodeMe && !r.impacted
  {
    NearestIsLeftmostNearest(xDest, m.xOrigin);
    InitGeneral(m.(kind := Player, state := Flying,
                   yOrigin := Display.HEIGHT,
                   xOrigin := NearestFrom(xDest, 0, UINT16_MAX, m.xOrigin),
                   xDest := xDest, yDest := yDest))
  }

  /** missile_init_plane: from the plane to a random point on the bottom
      edge. */
  function InitPlane(m: Missile, planeX: int, planeY: int, drawX: nat): (r: Missile)
    ensures r.kind == PlaneKind && r.state == Flying
    ensures r.xOrigin == planeX && r.yOrigin == planeY
    ensures 0 <= r.xDest < Display.WIDTH && r.yDest == Display.HEIGHT
    ensures r.xCurrent == planeX && r.yCurrent == planeY && !r.explodeMe && !r.impacted
  {
    InitGeneral(m.(kind := PlaneKind, state := Flying,
                   xOrigin := planeX, yOrigin := planeY,
                   xDest := drawX % Display.WIDTH as nat, yDest := Display.HEIGHT))
  }

  /** The floating-point outcomes of one tick: whether the travelled length
      has reached the total, the interpolated position, whether the grown
      radius has reached its maximum of 25, whether the shrunk radius has
      fallen to zero. */
  datatype Outcome = Outcome(reached: bool, position: Display.Point, radiusFull: bool, radiusGone: bool)

  /** missile_tick. */
  function Tick(m: Missile, o: Outcome): (r: Missile)
    ensures r.kind == m.kind && r.explodeMe == m.explodeMe
    ensures r.xOrigin == m.xOrigin && r.yOrigin == m.yOrigin && r.xDest == m.xDest && r.yDest == m.yDest
    ensures m.state != Flying ==> r.xCurrent == m.xCurrent && r.yCurrent == m.yCurrent
    ensures r.impacted != m.impacted ==> m.state == Flying && m.kind != Player && r.state == Dead && r.impacted
    ensures Inv(m) ==> Inv(r)
  {
    match m.state
    case Flying =>
      var moved := m.(xCurrent := o.position.x, yCurrent := o.position.y);
      if m.explodeMe then moved.(state := ExplosionGrow)
      else if m.kind == Player && o.reached then moved.(state := ExplosionGrow)
      else if m.kind != Player && o.reached then moved.(impacted := true, state := Dead)
      else moved
    case ExplosionGrow =>
      if o.radiusFull then m.(state := ExplosionShrink) else m
    case ExplosionShrink =>
      if o.radiusGone then m.(state := Dead) else m
    case Dead => m
  }

  function IsDead(m: Missile): (r: bool)
    ensures r <==> m.state != Flying && m.state != ExplosionGrow && m.state != ExplosionShrink
  {
    m.state == Dead
  }

  function IsExploding(m: Missile): (r: bool)
    ensures r <==> m.state != Flying && m.state != Dead
  {
    m.state == ExplosionGrow || m.state == ExplosionShrink
  }

  function IsFlying(m: Missile): (r: bool)
    ensures r <==> m.state != Dead && m.state != ExplosionGrow && m.state != ExplosionShrink
  {
    m.state == Flying
  }

  /** Each state answers exactly one of the three queries. */
  lemma ExactlyOneQuery(m: Missile)
    ensures IsDead(m) || IsExploding(m) || IsFlying(m)
    ensures !(IsDead(m) && IsExploding(m)) && !(IsDead(m) && IsFlying(m)) && !(IsExploding(m) && IsFlying(m))
  {
  }

  /** missile_trigger_explosion: only the flag changes. */
  function TriggerExplosion(m: Missile): (r: Missile)
    ensures r.explodeMe && r == m.(explodeMe := true)
  {
    m.(explodeMe := true)
  }

  /** The life cycle, step by step. */
  lemma TickTransitions(m: Missile, o: Outcome)
    ensures m.state == Flying && m.explodeMe ==> Tick(m, o).state == ExplosionGrow
    ensures m.state == Flying && !m.explodeMe && o.reached ==>
              if m.kind == Player then Tick(m, o).state == ExplosionGrow
              else Tick(m, o).state == Dead && Tick(m, o).impacted
    ensures m.state == Flying && !m.explodeMe && !o.reached ==> Tick(m, o).state == Flying
    ensures m.state == Flying ==> Tick(m, o).xCurrent == o.position.x && Tick(m, o).yCurrent == o.position.y
    ensures m.state == ExplosionGrow ==> Tick(m, o).state == (if o.radiusFull then ExplosionShrink else ExplosionGrow)
    ensures m.state == ExplosionShrink ==> Tick(m, o).state == (if o.radiusGone then Dead else ExplosionShrink)
    ensures m.state == Dead ==> Tick(m, o) == m
  {
  }

  /** States only move forward: flying, growing, shrinking, dead. */
  function Rank(s: State): nat {
    match s
    case Flying => 0
    case ExplosionGrow => 1
    case ExplosionShrink => 2
    case Dead => 3
  }

  lemma TickNeverGoesBack(m: Missile, o: Outcome)
    ensures Rank(Tick(m, o).state) >= Rank(m.state)
  {
  }

  /** Only an enemy or plane missile that lands is marked impacted, and it is
      then dead; a player missile never is. */
  ghost predicate Inv(m: Missile) {
    m.impacted ==> m.kind != Player && m.state == Dead
  }

  lemma OperationsKeepInv(m: Missile, o: Outcome, d: EnemyDraws, x: nat, y: nat, px: int, py: int)
    requires Inv(m) && x <= UINT16_MAX && y <= UINT16_MAX
    ensures Inv(Tick(m, o)) && Inv(InitDead(m)) && Inv(TriggerExplosion(m))
    ensures Inv(InitEnemy(m, d)) && Inv(InitPlayer(m, x, y)) && Inv(InitPlane(m, px, py, x))
  {
  }

  /** `n` ticks with the same outcome each tick. */
  function Run(m: Missile, o: Outcome, n: nat): Missile
    decreases n
  {
    if n == 0 then m else Run(Tick(m, o), o, n - 1)
  }

  /** Whatever its kind and state, a missile whose flight ends and whose
      explosion reaches full size and fades is dead within three ticks, and
      stays dead. */
  lemma {:induction false} DiesWithinThreeTicks(m: Missile, n: nat)
    ensures IsDead(Run(m, Outcome(true, Display.Point(m.xDest, m.yDest), true, true), 3 + n))
    decreases n
  {
    var o := Outcome(true, Display.Point(m.xDest, m.yDest), true, true);
    var m1 := Tick(m, o);
    var m2 := Tick(m1, o);
    var m3 := Tick(m2, o);
    assert IsDead(m3);
    assert Run(m, o, 3 + n) == Run(m3, o, n) by {
      assert Run(m, o, 3 + n) == Run(m1, o, 2 + n);
      assert Run(m1, o, 2 + n) == Run(m2, o, 1 + n);
    }
    DeadStays(m3, o, n);
  }

  lemma {:induction false} DeadStays(m: Missile, o: Outcome, n: nat)
    requires IsDead(m)
    ensures Run(m, o, n) == m
    decreases n
  {
    if n > 0 {
      DeadStays(Tick(m, o), o, n - 1);
    }
  }
}
