/**
 * The zombie: one target's position, hitbox radius, timing and
 * lifecycle state machine (spawning -> alive -> despawning -> dead).
 *
 * Timestamps are integer milliseconds read from the game clock; the
 * clock itself is not modelled, every reading is a parameter.
 */
module Zombies {

  // Configuration constants of the game.
  const SPAWN_MIN_MS: int := 800
  const SPAWN_MAX_MS: int := 1500
  const ZOMBIE_BASE_RADIUS: int := 48
  const SPAWN_ANIM_MS: int := 180
  const DESPAWN_ANIM_MS: int := 220

  datatype Point = Point(x: int, y: int)

  /** The twelve fixed spawn locations spread across the playfield. */
  const SPAWN_POINTS: seq<Point> := [
    Point(150, 160), Point(300, 140), Point(450, 170), Point(600, 150),
    Point(750, 170), Point(220, 320), Point(420, 300), Point(620, 330),
    Point(780, 310), Point(320, 480), Point(500, 470), Point(700, 500)
  ]

  datatype State = Spawning | Alive | Despawning | Dead

  /** Position of a state in the lifecycle order. */
  function Rank(s: State): (n: nat)
    ensures n <= 3
    ensures s == Dead <==> n == 3
  {
    match s
    case Spawning => 0
    case Alive => 1
    case Despawning => 2
    case Dead => 3
  }

  /** The value a zombie object holds: every field it has. */
  datatype ZombieVal = ZombieVal(
    x: int, y: int,
    radius: int,
    spawnTime: int,
    lifetimeMs: int,
    state: State,
    stateTime: int,      // when the current state was entered
    hitRegistered: bool)

  /** A freshly created zombie: spawn time and state time are both `ticks`. */
  function Spawned(pos: Point, ticks: int, lifetime: int): (z: ZombieVal)
    requires SPAWN_MIN_MS <= lifetime <= SPAWN_MAX_MS
    ensures z.state == Spawning && !z.hitRegistered
    ensures z.x == pos.x && z.y == pos.y && z.radius == ZOMBIE_BASE_RADIUS
    ensures z.spawnTime == ticks && z.stateTime == ticks
    ensures z.lifetimeMs == lifetime && SPAWN_MIN_MS <= z.lifetimeMs <= SPAWN_MAX_MS
  {
    ZombieVal(pos.x, pos.y, ZOMBIE_BASE_RADIUS, ticks, lifetime, Spawning, ticks, false)
  }

  /** Two zombie values agree on everything except the lifecycle fields: state, state time and hit flag. */
  predicate SameBody(a: ZombieVal, b: ZombieVal)
  {
    a.x == b.x && a.y == b.y && a.radius == b.radius &&
    a.spawnTime == b.spawnTime && a.lifetimeMs == b.lifetimeMs
  }

  /** One call of `update(now)`. */
  function Updated(z: ZombieVal, now: int): (r: ZombieVal)
    ensures SameBody(r, z) && r.hitRegistered == z.hitRegistered
    ensures Rank(r.state) == Rank(z.state) || Rank(r.state) == Rank(z.state) + 1
    ensures z.state == Dead ==> r == z
  {
    match z.state
    case Spawning =>
      if now - z.stateTime >= SPAWN_ANIM_MS then z.(state := Alive, stateTime := now) else z
    case Alive =>
      if now - z.spawnTime >= z.lifetimeMs then z.(state := Despawning, stateTime := now) else z
    case Despawning =>
      if now - z.stateTime >= DESPAWN_ANIM_MS then z.(state := Dead) else z
    case Dead => z
  }

  /** Equivalent of `is_clickable`: the single gate against counting a zombie twice. */
  predicate Clickable(z: ZombieVal)
    ensures Clickable(z) <==> !z.hitRegistered && Rank(z.state) < Rank(Despawning)
  {
    (z.state == Spawning || z.state == Alive) && !z.hitRegistered
  }

  /** One call of `register_hit`, with `ticks` the clock reading it takes. */
  function WithHit(z: ZombieVal, ticks: int): (r: ZombieVal)
    ensures SameBody(r, z)
    ensures r.hitRegistered && r.state == Despawning && r.stateTime == ticks
    ensures !Clickable(r)
  {
    z.(hitRegistered := true, state := Despawning, stateTime := ticks)
  }

  function SquaredDistance(z: ZombieVal, p: Point): int
  {
    (p.x - z.x) * (p.x - z.x) + (p.y - z.y) * (p.y - z.y)
  }

  /**
   * Equivalent of `hit_test`: the point lies within 0.95 of the radius.
   * Computed over integers as 400 * d^2 <= 361 * r^2.
   */
  predicate InHitbox(z: ZombieVal, p: Point)
    ensures InHitbox(z, p) <==>
      (SquaredDistance(z, p) as real) <= (z.radius as real * 0.95) * (z.radius as real * 0.95)
  {
    var d2 := SquaredDistance(z, p);
    var r2 := (z.radius * z.radius) as real;
    assert (z.radius as real * 0.95) * (z.radius as real * 0.95) == r2 * 0.9025;
    assert (361 * (z.radius * z.radius)) as real == 361.0 * r2;
    assert (400 * d2) as real == 400.0 * (d2 as real);
    400 * d2 <= 361 * (z.radius * z.radius)
  }

  /** The state after calling `update` with each timestamp of `nows` in turn. */
  function UpdatedAll(z: ZombieVal, nows: seq<int>): ZombieVal
    decreases |nows|
  {
    if |nows| == 0 then z else UpdatedAll(Updated(z, nows[0]), nows[1..])
  }

  // ---------------------------------------------------------------------
  // Lemmas about the lifecycle
  // ---------------------------------------------------------------------

  /** The exact condition under which each state advances, and no change otherwise. */
  lemma UpdateTransitions(z: ZombieVal, now: int)
    ensures z.state == Spawning ==>
      (Updated(z, now).state == Alive <==> now - z.stateTime >= SPAWN_ANIM_MS)
    ensures z.state == Alive ==>
      (Updated(z, now).state == Despawning <==> now - z.spawnTime >= z.lifetimeMs)
    ensures z.state == Despawning ==>
      (Updated(z, now).state == Dead <==> now - z.stateTime >= DESPAWN_ANIM_MS)
    ensures Updated(z, now).state == z.state ==> Updated(z, now) == z
    ensures Updated(z, now).state != z.state && z.state != Despawning ==>
      Updated(z, now).stateTime == now
  {
  }

  /** `update` and `register_hit` never move the hitbox. */
  lemma HitboxIgnoresLifecycle(z: ZombieVal, p: Point, now: int, ticks: int)
    ensures InHitbox(Updated(z, now), p) == InHitbox(z, p)
    ensures InHitbox(WithHit(z, ticks), p) == InHitbox(z, p)
    ensures forall s: State, t: int, h: bool ::
      InHitbox(z.(state := s, stateTime := t, hitRegistered := h), p) == InHitbox(z, p)
  {
  }

  /** At the base radius the hitbox is exactly the points at squared distance at most 2079. */
  lemma HitboxAtBaseRadius(z: ZombieVal, p: Point)
    requires z.radius == ZOMBIE_BASE_RADIUS
    ensures InHitbox(z, p) <==> SquaredDistance(z, p) <= 2079
  {
  }

  lemma {:induction false} UpdatedAllAppend(z: ZombieVal, a: seq<int>, b: seq<int>)
    ensures UpdatedAll(z, a + b) == UpdatedAll(UpdatedAll(z, a), b)
    decreases |a|
  {
    if |a| == 0 {
      assert a + b == b;
    } else {
      assert (a + b)[0] == a[0] && (a + b)[1..] == a[1..] + b;
      UpdatedAllAppend(Updated(z, a[0]), a[1..], b);
    }
  }

  /** Over any run of updates the state moves forward, at most one step per update. */
  lemma {:induction false} UpdatesMoveForward(z: ZombieVal, nows: seq<int>)
    ensures SameBody(UpdatedAll(z, nows), z)
    ensures UpdatedAll(z, nows).hitRegistered == z.hitRegistered
    ensures Rank(z.state) <= Rank(UpdatedAll(z, nows).state) <= Rank(z.state) + |nows|
    decreases |nows|
  {
    if |nows| > 0 {
      UpdatesMoveForward(Updated(z, nows[0]), nows[1..]);
    }
  }

  /** A later point of a run of updates is never at an earlier state. */
  lemma LaterNeverEarlier(z: ZombieVal, nows: seq<int>, i: nat, j: nat)
    requires i <= j <= |nows|
    ensures Rank(UpdatedAll(z, nows[..i]).state) <= Rank(UpdatedAll(z, nows[..j]).state)
  {
    assert nows[..j] == nows[..i] + nows[i..j];
    UpdatedAllAppend(z, nows[..i], nows[i..j]);
    UpdatesMoveForward(UpdatedAll(z, nows[..i]), nows[i..j]);
  }

  /** Dead is terminal: no run of updates changes a dead zombie. */
  lemma {:induction false} DeadIsTerminal(z: ZombieVal, nows: seq<int>)
    requires z.state == Dead
    ensures UpdatedAll(z, nows) == z
    decreases |nows|
  {
    if |nows| > 0 {
      DeadIsTerminal(Updated(z, nows[0]), nows[1..]);
    }
  }

  /** Once a hit is registered the zombie is never clickable again, whatever updates follow. */
  lemma HitIsFinal(z: ZombieVal, ticks: int, nows: seq<int>)
    ensures UpdatedAll(WithHit(z, ticks), nows).hitRegistered
    ensures !Clickable(UpdatedAll(WithHit(z, ticks), nows))
    ensures Rank(UpdatedAll(WithHit(z, ticks), nows).state) >= Rank(Despawning)
  {
    UpdatesMoveForward(WithHit(z, ticks), nows);
  }

  /**
   * A zombie spawned at time 0 with a 1000 ms lifetime and never clicked:
   * alive from 180, still alive at 999, despawning at 1000, dead at 1220.
   */
  lemma ExpiryScenario(p: Point)
    ensures UpdatedAll(Spawned(p, 0, 1000), [0, 180]).state == Alive
    ensures UpdatedAll(Spawned(p, 0, 1000), [0, 180, 999]).state == Alive
    ensures UpdatedAll(Spawned(p, 0, 1000), [0, 180, 1000]).state == Despawning
    ensures UpdatedAll(Spawned(p, 0, 1000), [0, 180, 1000, 1219]).state == Despawning
    ensures UpdatedAll(Spawned(p, 0, 1000), [0, 180, 1000, 1220]).state == Dead
  {
  }

  // ---------------------------------------------------------------------
  // The zombie object
  // ---------------------------------------------------------------------

  class Zombie {
    const x: int
    const y: int
    const radius: int
    const spawnTime: int
    const lifetimeMs: int
    var state: State
    var stateTime: int
    var hitRegistered: bool

    function Model(): ZombieVal
      reads this
    {
      ZombieVal(x, y, radius, spawnTime, lifetimeMs, state, stateTime, hitRegistered)
    }

    /** `ticks` is the clock reading at creation, `lifetime` the random lifetime drawn. */
    constructor (pos: Point, ticks: int, lifetime: int)
      requires SPAWN_MIN_MS <= lifetime <= SPAWN_MAX_MS
      ensures Model() == Spawned(pos, ticks, lifetime)
    {
      x, y := pos.x, pos.y;
      radius := ZOMBIE_BASE_RADIUS;
      spawnTime := ticks;
      lifetimeMs := lifetime;
      state := Spawning;
      hitRegistered := false;
      stateTime := ticks;
    }

    method Update(now: int)
      modifies this
      ensures Model() == Updated(old(Model()), now)
    {
      if state == Spawning {
        if now - stateTime >= SPAWN_ANIM_MS {
          state := Alive;
          stateTime := now;
        }
      } else if state == Alive {
        if now - spawnTime >= lifetimeMs {
          state := Despawning;
          stateTime := now;
        }
      } else if state == Despawning {
        if now - stateTime >= DESPAWN_ANIM_MS {
          state := Dead;
        }
      }
    }

    predicate IsClickable()
      reads this
      ensures IsClickable() <==> !hitRegistered && Rank(state) < Rank(Despawning)
    {
      Clickable(Model())
    }

    predicate HitTest(p: Point)
      reads this
      ensures HitTest(p) <==>
        (((p.x - x) * (p.x - x) + (p.y - y) * (p.y - y)) as real)
          <= (radius as real * 0.95) * (radius as real * 0.95)
    {
      InHitbox(Model(), p)
    }

    /** `ticks` is the clock reading the source takes inside `register_hit`. */
    method RegisterHit(ticks: int)
      modifies this
      ensures Model() == WithHit(old(Model()), ticks)
    {
      hitRegistered := true;
      state := Despawning;
      stateTime := ticks;
    }
  }
}
