/** The Missile Command plane: it waits off screen for a random cooldown,
    crosses the top third of the display in a random direction, fires its
    one missile once it passes a random point in the middle half, and is
    re-initialised when it leaves the screen or is hit.

    The three `rand()` calls of an initialisation are a `Draws` parameter.
    The distance per tick and the game timer period come from config.h, which
    is not part of this model; they are the `Config` parameter. The program
    divides the drawn whole number of seconds by the floating-point period
    and truncates the quotient to uint16; the model takes those five
    quotients, one per possible cooldown, as a table. */
module Plane {
  import opened Common
  import Display

  const STARTING_OFFSET_X: int := -20
  const PLANE_HALF_LENGTH: int := 20
  const MIN_COOLDOWN_SECS: nat := 5
  const MAX_COOLDOWN_SECS: nat := 10
  const DISPLAY_HALF_WIDTH: nat := 160     // DISPLAY_WIDTH / 2
  const DISPLAY_QUARTER_WIDTH: nat := 80   // DISPLAY_WIDTH / 4
  const DISPLAY_TOP_QUARTER: nat := 80     // DISPLAY_HEIGHT / 3

  datatype State = Flying | Dead

  /** Pixels moved per tick, and `cooldownTicks[i]`, the tick count of a
      cooldown of MIN_COOLDOWN_SECS + i seconds: the seconds divided by the
      timer period, truncated to uint16. */
  datatype Config = Config(speed: nat, cooldownTicks: seq<nat>)

  /** One tick count per possible cooldown, each a uint16. The quotients of
      a positive period never decrease as the seconds grow. */
  predicate ConfigValid(cfg: Config) {
    && 1 <= cfg.speed <= 1000
    && |cfg.cooldownTicks| == MAX_COOLDOWN_SECS - MIN_COOLDOWN_SECS
    && (forall i :: 0 <= i < |cfg.cooldownTicks| ==> cfg.cooldownTicks[i] < U16_MODULUS)
    && (forall i, j :: 0 <= i <= j < |cfg.cooldownTicks| ==> cfg.cooldownTicks[i] <= cfg.cooldownTicks[j])
  }

  /** The whole seconds of cooldown a draw selects. */
  function CooldownSecs(d: Draws): (secs: nat)
    ensures MIN_COOLDOWN_SECS <= secs < MAX_COOLDOWN_SECS
  {
    d.cooldown % (MAX_COOLDOWN_SECS - MIN_COOLDOWN_SECS) + MIN_COOLDOWN_SECS
  }

  /** The raw values of the three `rand()` calls of `plane_init`. */
  datatype Draws = Draws(cooldown: nat, direction: nat, fireX: nat)

  datatype Plane = Plane(
    cfg: Config,
    state: State,
    x: int,                // int16
    y: int,                // int16
    facingRight: bool,
    fireX: nat,            // uint16
    missileFired: bool,
    explodeMe: bool,
    deadCount: nat,        // uint16
    deadTotal: nat)        // uint16

  /** plane_init (which also re-arms the plane after a flight). */
  function Init(cfg: Config, d: Draws): (p: Plane)
    requires ConfigValid(cfg)
    ensures p.state == Dead && !p.missileFired && !p.explodeMe && p.deadCount == 0
    ensures p.facingRight <==> d.direction % 2 == 1
    ensures p.facingRight ==> p.x == -20
    ensures !p.facingRight ==> p.x == Display.WIDTH + 20
    ensures p.y == Display.HEIGHT / 3
    ensures Display.WIDTH / 4 <= p.fireX < 3 * (Display.WIDTH / 4)
    ensures p.deadTotal == cfg.cooldownTicks[CooldownSecs(d) - MIN_COOLDOWN_SECS]
    ensures cfg.cooldownTicks[0] <= p.deadTotal <= cfg.cooldownTicks[|cfg.cooldownTicks| - 1]
    ensures p.cfg == cfg
  {
    var secs := CooldownSecs(d);
    var right := d.direction % 2 == 1;
    Plane(cfg, Dead,
          if right then STARTING_OFFSET_X else Display.WIDTH - STARTING_OFFSET_X,
          DISPLAY_TOP_QUARTER, right,
          d.fireX % DISPLAY_HALF_WIDTH + DISPLAY_QUARTER_WIDTH,
          false, false, 0, cfg.cooldownTicks[secs - MIN_COOLDOWN_SECS])
  }

  /** plane_isOffscreen: past the right edge by the plane's half length when
      flying right, at or past the left edge when flying left. */
  function IsOffscreen(p: Plane): (r: bool)
    ensures r && DISPLAY_QUARTER_WIDTH <= p.fireX < DISPLAY_QUARTER_WIDTH + DISPLAY_HALF_WIDTH ==>
              if p.facingRight then p.x >= p.fireX else p.x <= p.fireX
  {
    if p.facingRight then p.x >= Display.WIDTH + PLANE_HALF_LENGTH else p.x <= 0
  }

  /** plane_canFireMissile: not yet fired, and at or past the firing point in
      the direction of travel. */
  function CanFireMissile(p: Plane): (r: bool)
    ensures r ==> !p.missileFired
    ensures (!p.missileFired && IsOffscreen(p) &&
             DISPLAY_QUARTER_WIDTH <= p.fireX < DISPLAY_QUARTER_WIDTH + DISPLAY_HALF_WIDTH) ==> r
  {
    !p.missileFired && (if p.facingRight then p.x >= p.fireX else p.x <= p.fireX)
  }

  /** What a tick reports besides the new plane: the point from which the
      plane's missile is launched this tick, if it is. */
  datatype Step = Step(next: Plane, fired: Option<Display.Point>)

  /** plane_tick. `d` is consumed only when the plane is re-initialised. */
  function Tick(p: Plane, d: Draws): (s: Step)
    requires ConfigValid(p.cfg) && p.deadCount < U16_MODULUS
    ensures s.next.cfg == p.cfg
    ensures s.fired.Some? <==> p.state == Flying && !IsOffscreen(p) && !p.explodeMe && CanFireMissile(p)
    ensures s.fired.Some? ==> s.fired.value == Display.Point(p.x, p.y) && s.next.missileFired
  {
    var (t, fired) :=
      match p.state
      case Flying =>
        if IsOffscreen(p) || p.explodeMe then (Init(p.cfg, d), None)
        else if CanFireMissile(p) then (p.(missileFired := true), Some(Display.Point(p.x, p.y)))
        else (p, None)
      case Dead =>
        if p.deadCount >= p.deadTotal then (p.(state := Flying), None) else (p, None);
    var next :=
      match t.state
      case Flying => t.(x := if t.facingRight then t.x + t.cfg.speed else t.x - t.cfg.speed)
      case Dead => t.(deadCount := Incr(t.deadCount, U16_MODULUS));
    Step(next, fired)
  }

  /** plane_explode: raises the flag and changes nothing else. */
  function Explode(p: Plane): (r: Plane)
    ensures r.explodeMe && r == p.(explodeMe := true)
  {
    p.(explodeMe := true)
  }

  /** plane_getXY. */
  function GetXY(p: Plane): (pt: Display.Point)
    ensures pt.x == p.x && pt.y == p.y
  {
    Display.Point(p.x, p.y)
  }

  /** The plane stays near the display: it moves right from x = -20 and is
      removed once past 340, moves left from 340 and is removed once at 0, so
      its coordinates always fit the int16 fields. A waiting plane sits at
      its starting point and has not fired, and its count never passes its
      total except for the first tick after a flight. */
  ghost predicate Inv(p: Plane) {
    && ConfigValid(p.cfg)
    && p.y == DISPLAY_TOP_QUARTER
    && DISPLAY_QUARTER_WIDTH <= p.fireX < DISPLAY_QUARTER_WIDTH + DISPLAY_HALF_WIDTH
    && p.deadTotal < U16_MODULUS
    && (p.deadCount <= p.deadTotal || p.deadCount <= 1)
    && (p.state == Dead ==> !p.missileFired)
    && (p.state == Dead ==> p.x == if p.facingRight then STARTING_OFFSET_X else Display.WIDTH - STARTING_OFFSET_X)
    && (p.facingRight ==> STARTING_OFFSET_X <= p.x < Display.WIDTH + PLANE_HALF_LENGTH + p.cfg.speed)
    && (!p.facingRight ==> -(p.cfg.speed as int) < p.x <= Display.WIDTH - STARTING_OFFSET_X)
  }

  /** Every coordinate the invariant allows fits a 16-bit signed integer. */
  lemma InvFitsInt16(p: Plane)
    requires Inv(p)
    ensures -0x8000 <= p.x < 0x8000 && -0x8000 <= p.y < 0x8000
  {
  }

  lemma InitEstablishesInv(cfg: Config, d: Draws)
    requires ConfigValid(cfg)
    ensures Inv(Init(cfg, d))
  {
  }

  /** A re-armed plane starts outside the display but not yet off screen,
      and short of its firing point. */
  lemma InitStartsOnCourse(cfg: Config, d: Draws)
    requires ConfigValid(cfg)
    ensures !IsOffscreen(Init(cfg, d)) && !CanFireMissile(Init(cfg, d))
  {
  }

  /** A longer drawn cooldown never gives fewer ticks of waiting. */
  lemma LongerCooldownWaitsLonger(cfg: Config, d1: Draws, d2: Draws)
    requires ConfigValid(cfg) && CooldownSecs(d1) <= CooldownSecs(d2)
    ensures Init(cfg, d1).deadTotal <= Init(cfg, d2).deadTotal
  {
  }

  lemma TickPreservesInv(p: Plane, d: Draws)
    requires Inv(p)
    ensures Inv(Tick(p, d).next)
  {
    if p.state == Flying && (IsOffscreen(p) || p.explodeMe) {
      InitEstablishesInv(p.cfg, d);
    }
  }

  /** The per-state behaviour of a tick. */
  lemma TickTransitions(p: Plane, d: Draws)
    requires Inv(p)
    ensures p.state == Dead ==>
              && (Tick(p, d).next.state == Flying <==> p.deadCount >= p.deadTotal)
              && (Tick(p, d).next.state == Dead ==> Tick(p, d).next.deadCount == p.deadCount + 1)
    ensures Tick(p, d).next.state == Flying ==>
              Tick(p, d).next.x == p.x + (if p.facingRight then p.cfg.speed else -(p.cfg.speed as int))
    ensures p.state == Flying && (IsOffscreen(p) || p.explodeMe) ==>
              Tick(p, d).next == Init(p.cfg, d).(deadCount := 1)
    ensures p.state == Flying && !IsOffscreen(p) && !p.explodeMe ==> Tick(p, d).next.state == Flying
  {
  }

  /** `n` ticks, one draw per tick; the missiles launched and the flights
      ended on the way. */
  function Run(p: Plane, draws: seq<Draws>): (r: (Plane, nat, nat))
    requires Inv(p)
    ensures Inv(r.0)
    decreases |draws|
  {
    if |draws| == 0 then (p, 0, 0)
    else
      var s := Tick(p, draws[0]);
      TickPreservesInv(p, draws[0]);
      var ended := p.state == Flying && s.next.state == Dead;
      var rest := Run(s.next, draws[1..]);
      (rest.0, rest.1 + (if s.fired.Some? then 1 else 0), rest.2 + (if ended then 1 else 0))
  }

  /** The plane fires at most once per flight: over any run, the missiles
      launched are at most the flights ended plus one, and none if the
      plane has already fired and does not land. */
  lemma {:induction false} AtMostOneShotPerFlight(p: Plane, draws: seq<Draws>)
    requires Inv(p)
    ensures
      var (q, shots, ended) := Run(p, draws);
      shots + (if p.missileFired then 1 else 0) <= ended + (if q.missileFired then 1 else 0)
    decreases |draws|
  {
    if |draws| > 0 {
      TickPreservesInv(p, draws[0]);
      AtMostOneShotPerFlight(Tick(p, draws[0]).next, draws[1..]);
    }
  }

  /** A flying plane that is hit is re-armed on its next tick, without
      firing. */
  lemma ExplodeThenTick(p: Plane, d: Draws)
    requires Inv(p) && p.state == Flying
    ensures Tick(Explode(p), d).next.state == Dead
    ensures !Tick(Explode(p), d).next.missileFired && !Tick(Explode(p), d).next.explodeMe
    ensures Tick(Explode(p), d).fired.None?
  {
  }
}
