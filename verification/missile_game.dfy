/** The Missile Command game controller: one array of missiles (enemy
    missiles first, then the player's, then the plane's), the plane, and
    the shot and impact statistics.

    Each tick respawns dead enemy missiles, fires a player missile on a
    released touch, triggers explosions in the blast of exploding missiles,
    ticks half of the missiles (alternating halves), ticks the plane, and
    counts impacts. The missile counts come from config.h, which is not part
    of this model: 7 enemy and 4 player missiles and the plane's, 12 in all.
    Whether a point lies within an explosion is computed in floating point in
    the program and is an input here; so are the random draws. */
module MissileGame {
  import opened Common
  import Display
  import Missile
  import Plane
  import Touchscreen

  // The three groups tile the array: enemies in slots 0 to 6, the player's
  // in 7 to 10, and the plane's missile in the last slot, 11.
  const MAX_ENEMY_MISSILES: nat := 7
  const MAX_PLAYER_MISSILES: nat := 4
  const MAX_TOTAL_MISSILES: nat := 12
  const HALFWAY_INDEX: nat := MAX_TOTAL_MISSILES / 2
  const PLAYER_START: nat := MAX_ENEMY_MISSILES
  const PLANE_MISSILE: nat := MAX_TOTAL_MISSILES - 1

  datatype Game = Game(
    missiles: seq<Missile.Missile>,
    plane: Plane.Plane,
    playerShots: nat,      // uint8
    enemyImpacts: nat,     // uint8
    prevPlayerShots: nat,  // uint8
    prevEnemyImpacts: nat, // uint8
    touched: Display.Point,
    tickFirstHalf: bool,
    firstTick: bool)

  /** A full array whose every missile keeps its own invariant. */
  ghost predicate AllInv(ms: seq<Missile.Missile>) {
    |ms| == MAX_TOTAL_MISSILES && forall i :: 0 <= i < |ms| ==> Missile.Inv(ms[i])
  }

  ghost predicate Inv(g: Game) {
    && AllInv(g.missiles)
    && Plane.Inv(g.plane)
    && g.playerShots < U8_MODULUS && g.enemyImpacts < U8_MODULUS
    && g.prevPlayerShots < U8_MODULUS && g.prevEnemyImpacts < U8_MODULUS
  }

  /** gameControl_init. `ms` is the array as it was; every missile is made
      dead. */
  function Init(ms: seq<Missile.Missile>, cfg: Plane.Config, d: Plane.Draws): (g: Game)
    requires |ms| == MAX_TOTAL_MISSILES && Plane.ConfigValid(cfg)
    requires forall i :: 0 <= i < |ms| ==> Missile.Inv(ms[i])
    ensures Inv(g)
    ensures forall i :: 0 <= i < MAX_TOTAL_MISSILES ==> Missile.IsDead(g.missiles[i])
    ensures g.plane == Plane.Init(cfg, d)
    ensures g.playerShots == 0 && g.enemyImpacts == 0 && g.prevPlayerShots == 0 && g.prevEnemyImpacts == 0
    ensures g.tickFirstHalf && g.firstTick
  {
    Plane.InitEstablishesInv(cfg, d);
    var dead := seq(MAX_TOTAL_MISSILES, i requires 0 <= i < MAX_TOTAL_MISSILES => Missile.InitDead(ms[i]));
    assert forall i :: 0 <= i < MAX_TOTAL_MISSILES ==> dead[i] == ms[i].(state := Missile.Dead);
    assert forall i :: 0 <= i < MAX_TOTAL_MISSILES ==> Missile.Inv(ms[i]);
    assert forall i :: 0 <= i < MAX_TOTAL_MISSILES ==> Missile.Inv(ms[i].(state := Missile.Dead));
    Game(dead, Plane.Init(cfg, d), 0, 0, 0, 0, Display.Point(0, 0), true, true)
  }

  /** Re-initialise every dead enemy missile; nothing else changes. */
  function RespawnEnemies(ms: seq<Missile.Missile>, draws: seq<Missile.EnemyDraws>): (r: seq<Missile.Missile>)
    requires AllInv(ms) && |draws| == MAX_ENEMY_MISSILES
    ensures AllInv(r)
    ensures forall i :: 0 <= i < MAX_ENEMY_MISSILES ==>
              !Missile.IsDead(r[i]) && !r[i].impacted &&
              r[i] == if Missile.IsDead(ms[i]) then Missile.InitEnemy(ms[i], draws[i]) else ms[i]
    ensures forall i :: MAX_ENEMY_MISSILES <= i < MAX_TOTAL_MISSILES ==> r[i] == ms[i]
  {
    assert forall i :: 0 <= i < MAX_TOTAL_MISSILES ==> Missile.Inv(ms[i]);
    var r := seq(MAX_TOTAL_MISSILES, i requires 0 <= i < MAX_TOTAL_MISSILES =>
      if i < MAX_ENEMY_MISSILES && Missile.IsDead(ms[i]) then Missile.InitEnemy(ms[i], draws[i]) else ms[i]);
    assert forall i :: 0 <= i < MAX_TOTAL_MISSILES ==> Missile.Inv(r[i]);
    r
  }

  /** The lowest-index dead player missile, searching from slot `i`. */
  function FirstDeadPlayer(ms: seq<Missile.Missile>, i: nat): (r: Option<nat>)
    requires |ms| == MAX_TOTAL_MISSILES && PLAYER_START <= i <= PLAYER_START + MAX_PLAYER_MISSILES
    ensures r.Some? ==> i <= r.value < PLAYER_START + MAX_PLAYER_MISSILES && Missile.IsDead(ms[r.value])
    ensures r.Some? ==> forall j :: i <= j < r.value ==> !Missile.IsDead(ms[j])
    ensures r.None? <==> forall j :: i <= j < PLAYER_START + MAX_PLAYER_MISSILES ==> !Missile.IsDead(ms[j])
    decreases PLAYER_START + MAX_PLAYER_MISSILES - i
  {
    if i == PLAYER_START + MAX_PLAYER_MISSILES then None
    else if Missile.IsDead(ms[i]) then Some(i)
    else FirstDeadPlayer(ms, i + 1)
  }

  /** On a released touch: re-initialise the first dead player missile
      towards the touched point and count the shot. */
  function FirePlayer(ms: seq<Missile.Missile>, shots: nat, touch: Display.Point): (r: (seq<Missile.Missile>, nat))
    requires AllInv(ms) && shots < U8_MODULUS
    requires 0 <= touch.x <= Missile.UINT16_MAX && 0 <= touch.y <= Missile.UINT16_MAX
    ensures AllInv(r.0) && r.1 < U8_MODULUS
    ensures r.1 == shots <==> FirstDeadPlayer(ms, PLAYER_START).None?
    ensures r.1 != shots ==> r.1 == Incr(shots, U8_MODULUS)
    ensures FirstDeadPlayer(ms, PLAYER_START).Some? ==>
              var k := FirstDeadPlayer(ms, PLAYER_START).value;
              r.0 == ms[k := Missile.InitPlayer(ms[k], touch.x, touch.y)]
    ensures FirstDeadPlayer(ms, PLAYER_START).None? ==> r.0 == ms
  {
    match FirstDeadPlayer(ms, PLAYER_START)
    case None => (ms, shots)
    case Some(k) => (ms[k := Missile.InitPlayer(ms[k], touch.x, touch.y)], Incr(shots, U8_MODULUS))
  }

  /** What may lie in an explosion: an enemy missile's head, the plane
      missile's head, the plane. */
  datatype Target = EnemyAt(j: nat) | PlaneMissileHead | PlaneBody

  /** Some exploding missile's blast covers the target. `inExplosion(t, i)`
      is the program's point-in-circle test of target `t` against missile
      `i`. */
  predicate InBlast(ms: seq<Missile.Missile>, inExplosion: (Target, nat) -> bool, t: Target) {
    exists i :: 0 <= i < |ms| && Missile.IsExploding(ms[i]) && inExplosion(t, i)
  }

  /** Slot `i` is a flying enemy or plane missile within a blast. */
  predicate Hit(ms: seq<Missile.Missile>, inExplosion: (Target, nat) -> bool, i: nat)
    requires i < |ms|
  {
    if i < MAX_ENEMY_MISSILES then Missile.IsFlying(ms[i]) && InBlast(ms, inExplosion, EnemyAt(i))
    else if i == PLANE_MISSILE then Missile.IsFlying(ms[i]) && InBlast(ms, inExplosion, PlaneMissileHead)
    else false
  }

  /** Flag every flying enemy missile, and the plane missile if flying, that
      lies in a blast; explode the plane if it does. */
  function Collide(ms: seq<Missile.Missile>, p: Plane.Plane, inExplosion: (Target, nat) -> bool): (r: (seq<Missile.Missile>, Plane.Plane))
    requires AllInv(ms)
    ensures AllInv(r.0)
    ensures forall i :: 0 <= i < MAX_TOTAL_MISSILES ==> r.0[i] == ms[i] || r.0[i] == Missile.TriggerExplosion(ms[i])
    ensures forall j :: 0 <= j < MAX_ENEMY_MISSILES ==>
              (r.0[j].explodeMe <==> ms[j].explodeMe || (Missile.IsFlying(ms[j]) && InBlast(ms, inExplosion, EnemyAt(j))))
    ensures r.0[PLANE_MISSILE].explodeMe <==>
              ms[PLANE_MISSILE].explodeMe || (Missile.IsFlying(ms[PLANE_MISSILE]) && InBlast(ms, inExplosion, PlaneMissileHead))
    ensures forall i :: PLAYER_START <= i < PLANE_MISSILE ==> r.0[i] == ms[i]
    ensures r.1 == if InBlast(ms, inExplosion, PlaneBody) then Plane.Explode(p) else p
  {
    (seq(MAX_TOTAL_MISSILES, i requires 0 <= i < MAX_TOTAL_MISSILES =>
       if Hit(ms, inExplosion, i) then Missile.TriggerExplosion(ms[i]) else ms[i]),
     if InBlast(ms, inExplosion, PlaneBody) then Plane.Explode(p) else p)
  }

  predicate InHalf(firstHalf: bool, i: nat) {
    if firstHalf then i < HALFWAY_INDEX else HALFWAY_INDEX <= i < MAX_TOTAL_MISSILES
  }

  /** Tick the missiles of one half of the array. */
  function TickHalf(ms: seq<Missile.Missile>, firstHalf: bool, outcomes: seq<Missile.Outcome>): (r: seq<Missile.Missile>)
    requires AllInv(ms) && |outcomes| == MAX_TOTAL_MISSILES
    ensures AllInv(r)
    ensures forall i :: 0 <= i < MAX_TOTAL_MISSILES ==>
              r[i] == if InHalf(firstHalf, i) then Missile.Tick(ms[i], outcomes[i]) else ms[i]
  {
    seq(MAX_TOTAL_MISSILES, i requires 0 <= i < MAX_TOTAL_MISSILES =>
      if InHalf(firstHalf, i) then Missile.Tick(ms[i], outcomes[i]) else ms[i])
  }

  /** The number of impacted missiles among the first `n`. */
  function ImpactedCount(ms: seq<Missile.Missile>, n: nat): (c: nat)
    requires n <= |ms|
    ensures c <= n
    ensures c == 0 <==> forall i :: 0 <= i < n ==> !ms[i].impacted
  {
    if n == 0 then 0 else ImpactedCount(ms, n - 1) + (if ms[n - 1].impacted then 1 else 0)
  }

  /** Count impacted enemy missiles and an impacted plane missile, clearing
      the plane missile's flag. The `enemy_impacts++` of each counted
      missile wraps at 256. */
  function CountImpacts(ms: seq<Missile.Missile>, impacts: nat): (r: (seq<Missile.Missile>, nat))
    requires AllInv(ms) && impacts < U8_MODULUS
    ensures AllInv(r.0) && r.1 < U8_MODULUS
    ensures r.1 == (impacts + ImpactedCount(ms, MAX_ENEMY_MISSILES)
                    + (if ms[PLANE_MISSILE].impacted then 1 else 0)) % U8_MODULUS
    ensures !r.0[PLANE_MISSILE].impacted
    ensures forall i :: 0 <= i < PLANE_MISSILE ==> r.0[i] == ms[i]
    ensures r.0[PLANE_MISSILE] == ms[PLANE_MISSILE].(impacted := false)
  {
    var counted := AddWrap(impacts, ImpactedCount(ms, MAX_ENEMY_MISSILES), U8_MODULUS);
    if ms[PLANE_MISSILE].impacted then
      (ms[PLANE_MISSILE := ms[PLANE_MISSILE].(impacted := false)], Incr(counted, U8_MODULUS))
    else (ms, counted)
  }

  /** The inputs of one tick: the touchscreen status and location, the
      random draws, the blast tests and the floating-point outcomes of each
      missile's tick. */
  datatype Inputs = Inputs(
    status: Touchscreen.Status,
    touch: Display.Point,
    enemyDraws: seq<Missile.EnemyDraws>,
    inExplosion: (Target, nat) -> bool,
    outcomes: seq<Missile.Outcome>,
    planeDraws: Plane.Draws,
    planeMissileX: nat)

  predicate InputsValid(inp: Inputs) {
    && |inp.enemyDraws| == MAX_ENEMY_MISSILES && |inp.outcomes| == MAX_TOTAL_MISSILES
    && 0 <= inp.touch.x <= Missile.UINT16_MAX && 0 <= inp.touch.y <= Missile.UINT16_MAX
  }

  /** A tick's results besides the new game: whether the touch was
      acknowledged, and whether the statistics are reprinted. */
  datatype Step = Step(next: Game, ack: bool, reprint: bool)

  /** The start of a tick: respawn enemies, then, on a released touch,
      record the point and fire a player missile at it. */
  function RespawnAndFire(g: Game, inp: Inputs): (r: (seq<Missile.Missile>, nat, Display.Point))
    requires Inv(g) && InputsValid(inp)
    ensures AllInv(r.0) && r.1 < U8_MODULUS
    ensures inp.status == Touchscreen.Released ==>
              var respawned := RespawnEnemies(g.missiles, inp.enemyDraws);
              r == (FirePlayer(respawned, g.playerShots, inp.touch).0,
                    FirePlayer(respawned, g.playerShots, inp.touch).1, inp.touch)
    ensures inp.status != Touchscreen.Released ==>
              r == (RespawnEnemies(g.missiles, inp.enemyDraws), g.playerShots, g.touched)
  {
    var respawned := RespawnEnemies(g.missiles, inp.enemyDraws);
    if inp.status == Touchscreen.Released then
      var f := FirePlayer(respawned, g.playerShots, inp.touch);
      (f.0, f.1, inp.touch)
    else (respawned, g.playerShots, g.touched)
  }

  /** Launch the plane's missile from the point the plane fired at, if it
      fired. */
  function LaunchPlaneMissile(ms: seq<Missile.Missile>, fired: Option<Display.Point>, drawX: nat): (r: seq<Missile.Missile>)
    requires AllInv(ms)
    ensures AllInv(r)
    ensures fired.None? ==> r == ms
    ensures fired.Some? ==>
              r == ms[PLANE_MISSILE := Missile.InitPlane(ms[PLANE_MISSILE], fired.value.x, fired.value.y, drawX)]
  {
    if fired.Some? then
      var r := ms[PLANE_MISSILE := Missile.InitPlane(ms[PLANE_MISSILE], fired.value.x, fired.value.y, drawX)];
      assert forall i :: 0 <= i < MAX_TOTAL_MISSILES ==> Missile.Inv(ms[i]);
      assert forall i :: 0 <= i < MAX_TOTAL_MISSILES ==> Missile.Inv(r[i]);
      r
    else ms
  }

  /** gameControl_tick. */
  function Tick(g: Game, inp: Inputs): (s: Step)
    requires Inv(g) && InputsValid(inp)
    ensures Inv(s.next)
    ensures s.ack <==> inp.status == Touchscreen.Released
    ensures s.next.prevPlayerShots == g.playerShots && s.next.prevEnemyImpacts == g.enemyImpacts
    ensures s.next.tickFirstHalf == !g.tickFirstHalf && !s.next.firstTick
    ensures s.reprint <==> s.next.playerShots != g.playerShots || s.next.enemyImpacts != g.enemyImpacts || g.firstTick
    ensures !s.next.missiles[PLANE_MISSILE].impacted
  {
    var (fired, shots, touched) := RespawnAndFire(g, inp);
    var (collided, plane) := Collide(fired, g.plane, inp.inExplosion);
    var ticked := TickHalf(collided, g.tickFirstHalf, inp.outcomes);
    Plane.TickPreservesInv(plane, inp.planeDraws);
    var planeStep := Plane.Tick(plane, inp.planeDraws);
    var launched := LaunchPlaneMissile(ticked, planeStep.fired, inp.planeMissileX);
    var (counted, impacts) := CountImpacts(launched, g.enemyImpacts);
    var next := Game(counted, planeStep.next, shots, impacts, g.playerShots, g.enemyImpacts,
                     touched, !g.tickFirstHalf, false);
    Step(next, inp.status == Touchscreen.Released,
         g.playerShots != shots || g.enemyImpacts != impacts || g.firstTick)
  }

  /** The two halves alternate: a missile ticked on this tick is not ticked
      on the next, and the other way round. */
  lemma HalvesAlternate(g: Game, inp: Inputs, i: nat)
    requires Inv(g) && InputsValid(inp) && i < MAX_TOTAL_MISSILES
    ensures InHalf(g.tickFirstHalf, i) <==> !InHalf(Tick(g, inp).next.tickFirstHalf, i)
  {
  }

  /** A player shot is counted exactly when the touch is released and some
      player missile is dead at the start of the tick. */
  lemma ShotsCountLaunches(g: Game, inp: Inputs)
    requires Inv(g) && InputsValid(inp)
    ensures
      var launched := inp.status == Touchscreen.Released &&
                      exists j :: PLAYER_START <= j < PLAYER_START + MAX_PLAYER_MISSILES && Missile.IsDead(g.missiles[j]);
      Tick(g, inp).next.playerShots == if launched then Incr(g.playerShots, U8_MODULUS) else g.playerShots
  {
    var respawned := RespawnEnemies(g.missiles, inp.enemyDraws);
    assert forall j :: PLAYER_START <= j < PLAYER_START + MAX_PLAYER_MISSILES ==> respawned[j] == g.missiles[j];
  }

  /** Every enemy missile counted as impacted at the end of a tick landed
      during that tick: respawning clears the flag of every dead enemy
      missile, so no landing is counted twice. */
  lemma ImpactsAreNew(g: Game, inp: Inputs, i: nat)
    requires Inv(g) && InputsValid(inp) && i < MAX_ENEMY_MISSILES
    requires Tick(g, inp).next.missiles[i].impacted
    ensures InHalf(g.tickFirstHalf, i)
    ensures Missile.IsDead(Tick(g, inp).next.missiles[i])
    ensures !Missile.IsDead(g.missiles[i]) ==> Missile.IsFlying(g.missiles[i])
  {
    var (fired, shots, touched) := RespawnAndFire(g, inp);
    var respawned := RespawnEnemies(g.missiles, inp.enemyDraws);
    assert fired[i] == respawned[i];
    assert !respawned[i].impacted;
  }
}
