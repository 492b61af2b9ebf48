/**
 * The game loop's state and its per-frame steps: input events (mouse
 * clicks scoring hits and misses, quit and mute keys), the spawn check
 * that keeps at most one zombie, the zombie update that releases a dead
 * zombie and schedules the next spawn, and the accuracy shown on the HUD.
 *
 * Each step is a function on `GameVal` values; the `Game` class holds the
 * same state in mutable fields and its methods are proved to perform
 * exactly those steps.
 */
module GameLoop {
  import opened Wrappers
  import opened Zombies

  const SPAWN_GAP_MIN_MS: int := 220
  const SPAWN_GAP_MAX_MS: int := 520
  const PRIMARY_BUTTON: int := 1

  datatype Key = Escape | KeyM | OtherKey

  datatype Event =
    | Quit
    | KeyDown(key: Key)
    | MouseDown(button: int, pos: Point)
    | OtherEvent

  /** The loop's state: the two counters, the single zombie slot and the spawn timer. */
  datatype GameVal = GameVal(
    hits: nat,
    misses: nat,
    zombie: Option<ZombieVal>,
    nextSpawnTime: int,
    running: bool,
    muted: bool,
    soundSupported: bool)

  function Initial(soundSupported: bool): (g: GameVal)
    ensures GameInvariant(g) && g.zombie.None? && g.running && !g.muted
    ensures g.hits == 0 && g.misses == 0 && Accuracy(g.hits, g.misses) == 0.0
    ensures g.soundSupported == soundSupported && g.nextSpawnTime == 0
  {
    GameVal(0, 0, None, 0, true, false, soundSupported)
  }

  /** A zombie during active play: a click that misses it counts as a miss. */
  predicate Targetable(z: ZombieVal)
    ensures Targetable(z) <==> Rank(z.state) < Rank(Despawning)
    ensures Clickable(z) ==> Targetable(z)
  {
    z.state == Spawning || z.state == Alive
  }

  /**
   * The held zombie moved forward from `a` to `b`: same body, a lifecycle
   * rank no lower, and a hit flag once set never cleared.
   */
  predicate Forward(a: ZombieVal, b: ZombieVal)
  {
    SameBody(b, a) && Rank(b.state) >= Rank(a.state) && (a.hitRegistered ==> b.hitRegistered)
  }

  /** What one primary-button click at `p` does; `ticks` is the clock reading taken by `register_hit`. */
  function ClickStep(g: GameVal, p: Point, ticks: int): (r: GameVal)
    ensures r.hits >= g.hits && r.misses >= g.misses
    ensures r.hits + r.misses <= g.hits + g.misses + 1
    ensures r.nextSpawnTime == g.nextSpawnTime && r.running == g.running
    ensures r.muted == g.muted && r.soundSupported == g.soundSupported
    ensures r.zombie.Some? == g.zombie.Some?
    ensures r.zombie.Some? ==> SameBody(r.zombie.value, g.zombie.value)
    ensures g.zombie.Some? ==> Forward(g.zombie.value, r.zombie.value)
  {
    if g.zombie.Some? && Clickable(g.zombie.value) && InHitbox(g.zombie.value, p) then
      g.(zombie := Some(WithHit(g.zombie.value, ticks)), hits := g.hits + 1)
    else if g.zombie.Some? && Targetable(g.zombie.value) then
      g.(misses := g.misses + 1)
    else
      g
  }

  /** The events that stop the loop: window close and Escape. */
  predicate IsStop(e: Event)
  {
    e.Quit? || e == KeyDown(Escape)
  }

  /** What one input event does. */
  function EventStep(g: GameVal, e: Event, ticks: int): (r: GameVal)
    ensures r.running ==> g.running
    ensures IsStop(e) ==> !r.running
    ensures !IsStop(e) ==> r.running == g.running
    ensures r.muted != g.muted <==> e == KeyDown(KeyM) && g.soundSupported
    ensures r.nextSpawnTime == g.nextSpawnTime && r.soundSupported == g.soundSupported
    ensures r.zombie.Some? == g.zombie.Some?
    ensures !IsPrimaryClick(e) ==> r.hits == g.hits && r.misses == g.misses && r.zombie == g.zombie
    ensures IsPrimaryClick(e) ==> r == ClickStep(g, e.pos, ticks)
  {
    match e
    case Quit => g.(running := false)
    case KeyDown(k) =>
      if k == Escape then g.(running := false)
      else if k == KeyM && g.soundSupported then g.(muted := !g.muted)
      else g
    case MouseDown(button, p) =>
      if button == PRIMARY_BUTTON then ClickStep(g, p, ticks) else g
    case OtherEvent => g
  }

  /** The events of one frame, handled in arrival order; `ts[i]` is the clock during `es[i]`. */
  function EventsStep(g: GameVal, es: seq<Event>, ts: seq<int>): (r: GameVal)
    requires |es| == |ts|
    ensures r.running ==> g.running
    ensures g.running && !r.running ==> exists i :: 0 <= i < |es| && IsStop(es[i])
    ensures (exists i :: 0 <= i < |es| && IsStop(es[i])) ==> !r.running
    ensures r.nextSpawnTime == g.nextSpawnTime && r.soundSupported == g.soundSupported
    ensures r.zombie.Some? == g.zombie.Some?
    ensures g.zombie.Some? ==> Forward(g.zombie.value, r.zombie.value)
    decreases |es|
  {
    if |es| == 0 then g
    else
      var n := |es| - 1;
      var m := EventsStep(g, es[..n], ts[..n]);
      assert g.running && !m.running ==> exists i :: 0 <= i < n && IsStop(es[..n][i]);
      assert forall i :: 0 <= i < n ==> es[..n][i] == es[i];
      EventStep(m, es[n], ts[n])
  }

  predicate IsPrimaryClick(e: Event)
  {
    e.MouseDown? && e.button == PRIMARY_BUTTON
  }

  function ClickCount(es: seq<Event>): nat
    decreases |es|
  {
    if |es| == 0 then 0
    else ClickCount(es[..|es| - 1]) + (if IsPrimaryClick(es[|es| - 1]) then 1 else 0)
  }

  /**
   * The spawn check: a new zombie only when the slot is empty and the timer
   * has passed; `index` and `lifetime` are the random choices, `ticks` the
   * clock reading the new zombie takes.
   */
  function SpawnStep(g: GameVal, now: int, ticks: int, index: int, lifetime: int): (r: GameVal)
    requires 0 <= index < |SPAWN_POINTS|
    requires SPAWN_MIN_MS <= lifetime <= SPAWN_MAX_MS
    ensures r.hits == g.hits && r.misses == g.misses && r.nextSpawnTime == g.nextSpawnTime
    ensures r.running == g.running && r.muted == g.muted && r.soundSupported == g.soundSupported
    ensures r.zombie != g.zombie ==> g.zombie.None? && now >= g.nextSpawnTime
    ensures g.zombie.Some? ==> r == g
    ensures g.zombie.None? && now >= g.nextSpawnTime ==>
      r.zombie.Some? &&
      Point(r.zombie.value.x, r.zombie.value.y) in SPAWN_POINTS &&
      SPAWN_MIN_MS <= r.zombie.value.lifetimeMs <= SPAWN_MAX_MS &&
      r.zombie.value.radius == ZOMBIE_BASE_RADIUS &&
      r.zombie.value.spawnTime == ticks &&
      r.zombie.value.state == Spawning && !r.zombie.value.hitRegistered &&
      r.zombie == Some(Spawned(SPAWN_POINTS[index], ticks, lifetime))
  {
    if g.zombie.None? && now >= g.nextSpawnTime then
      g.(zombie := Some(Spawned(SPAWN_POINTS[index], ticks, lifetime)))
    else
      g
  }

  /**
   * The zombie update: a zombie the update makes dead is released and the
   * next spawn is scheduled `gap` (the random pause) after `now`.
   */
  function UpdateStep(g: GameVal, now: int, gap: int): (r: GameVal)
    requires SPAWN_GAP_MIN_MS <= gap <= SPAWN_GAP_MAX_MS
    ensures r.hits == g.hits && r.misses == g.misses
    ensures r.running == g.running && r.muted == g.muted && r.soundSupported == g.soundSupported
    ensures g.zombie.None? ==> r == g
    ensures r.zombie.Some? ==> r.zombie.value.state != Dead
    ensures g.zombie.Some? && r.zombie.Some? ==>
      r.zombie.value == Updated(g.zombie.value, now) && r.nextSpawnTime == g.nextSpawnTime
    ensures g.zombie.Some? && r.zombie.None? ==>
      Updated(g.zombie.value, now).state == Dead &&
      r.nextSpawnTime == now + gap &&
      now + SPAWN_GAP_MIN_MS <= r.nextSpawnTime <= now + SPAWN_GAP_MAX_MS
  {
    if g.zombie.None? then g
    else
      var z := Updated(g.zombie.value, now);
      if z.state == Dead then g.(zombie := None, nextSpawnTime := now + gap)
      else g.(zombie := Some(z))
  }

  /** Everything one frame reads from the clock, the event queue and the random source. */
  datatype FrameInput = FrameInput(
    now: int,
    events: seq<Event>,
    eventTicks: seq<int>,
    spawnTicks: int,
    spawnIndex: int,
    lifetime: int,
    gap: int)

  /**
   * The clock readings of one frame in the order the source takes them:
   * the frame's `now` first, then one reading per event, then the one the
   * spawned zombie takes.
   */
  predicate ClockOrdered(f: FrameInput)
  {
    f.now <= f.spawnTicks &&
    (forall i :: 0 <= i < |f.eventTicks| ==> f.now <= f.eventTicks[i] <= f.spawnTicks) &&
    (forall i, j :: 0 <= i <= j < |f.eventTicks| ==> f.eventTicks[i] <= f.eventTicks[j])
  }

  predicate ValidInput(f: FrameInput)
  {
    |f.events| == |f.eventTicks| &&
    ClockOrdered(f) &&
    0 <= f.spawnIndex < |SPAWN_POINTS| &&
    SPAWN_MIN_MS <= f.lifetime <= SPAWN_MAX_MS &&
    SPAWN_GAP_MIN_MS <= f.gap <= SPAWN_GAP_MAX_MS
  }

  /** One iteration of the main loop, rendering aside. */
  function FrameStep(g: GameVal, f: FrameInput): (r: GameVal)
    requires ValidInput(f)
    ensures r.running ==> g.running
    ensures g.running && !r.running ==> exists i :: 0 <= i < |f.events| && IsStop(f.events[i])
    ensures (exists i :: 0 <= i < |f.events| && IsStop(f.events[i])) ==> !r.running
    ensures r.soundSupported == g.soundSupported
    ensures r.zombie.Some? ==> r.zombie.value.state != Dead
    ensures g.zombie.Some? && r.zombie.Some? ==> Forward(g.zombie.value, r.zombie.value)
  {
    var afterEvents := EventsStep(g, f.events, f.eventTicks);
    var afterSpawn := SpawnStep(afterEvents, f.now, f.spawnTicks, f.spawnIndex, f.lifetime);
    UpdateStep(afterSpawn, f.now, f.gap)
  }

  /** Valid frames whose clock never runs backwards from one frame to the next. */
  predicate ValidRun(inputs: seq<FrameInput>)
  {
    (forall i :: 0 <= i < |inputs| ==> ValidInput(inputs[i])) &&
    (forall i, j :: 0 <= i < j < |inputs| ==> inputs[i].spawnTicks <= inputs[j].now)
  }

  /** The main loop over a finite run of frames: it stops once `running` is false. */
  function Play(g: GameVal, inputs: seq<FrameInput>): (r: GameVal)
    requires ValidRun(inputs)
    ensures !g.running ==> r == g
    ensures r.running ==> g.running
    ensures g.running && !r.running ==>
      exists k, i :: 0 <= k < |inputs| && 0 <= i < |inputs[k].events| && IsStop(inputs[k].events[i])
    ensures (exists k, i :: 0 <= k < |inputs| && 0 <= i < |inputs[k].events| && IsStop(inputs[k].events[i])) ==>
      !r.running
    ensures r.soundSupported == g.soundSupported
    decreases |inputs|
  {
    if |inputs| == 0 || !g.running then g
    else
      assert forall k :: 0 <= k < |inputs| - 1 ==> inputs[1..][k] == inputs[k + 1];
      Play(FrameStep(g, inputs[0]), inputs[1..])
  }

  /** The accuracy shown on the HUD, in percent. */
  function Accuracy(hits: nat, misses: nat): (acc: real)
    ensures 0.0 <= acc <= 100.0
    ensures hits + misses == 0 ==> acc == 0.0
    ensures hits + misses > 0 ==> acc * ((hits + misses) as real) == 100.0 * (hits as real)
  {
    var total := hits + misses;
    if total > 0 then
      var q := (hits as real) / (total as real);
      assert q * (total as real) == hits as real;
      q * 100.0
    else
      0.0
  }

  // ---------------------------------------------------------------------
  // The invariant the loop keeps
  // ---------------------------------------------------------------------

  /** A zombie held in the slot. */
  predicate WellFormed(z: ZombieVal)
  {
    z.radius == ZOMBIE_BASE_RADIUS &&
    Point(z.x, z.y) in SPAWN_POINTS &&
    SPAWN_MIN_MS <= z.lifetimeMs <= SPAWN_MAX_MS &&
    z.state != Dead &&
    (z.hitRegistered ==> z.state == Despawning) &&
    (z.state == Spawning ==> z.stateTime == z.spawnTime)
  }

  predicate GameInvariant(g: GameVal)
  {
    g.zombie.Some? ==> WellFormed(g.zombie.value)
  }

  // ---------------------------------------------------------------------
  // Lemmas about clicks and events
  // ---------------------------------------------------------------------

  /** The three outcomes of a click. */
  lemma ClickOutcomes(g: GameVal, p: Point, ticks: int)
    ensures g.zombie.Some? && Clickable(g.zombie.value) && InHitbox(g.zombie.value, p) ==>
      ClickStep(g, p, ticks) ==
        g.(zombie := Some(WithHit(g.zombie.value, ticks)), hits := g.hits + 1)
    ensures g.zombie.Some? && Targetable(g.zombie.value) && !InHitbox(g.zombie.value, p) ==>
      ClickStep(g, p, ticks) == g.(misses := g.misses + 1)
    ensures g.zombie.None? || g.zombie.value.state == Despawning || g.zombie.value.state == Dead ==>
      ClickStep(g, p, ticks) == g
  {
  }

  /** Under the invariant a held zombie is clickable exactly while it is targetable. */
  lemma ClickableIffTargetable(g: GameVal)
    requires GameInvariant(g) && g.zombie.Some?
    ensures Clickable(g.zombie.value) <==> Targetable(g.zombie.value)
  {
  }

  /** A second click after a scoring click changes nothing, wherever it lands. */
  lemma SecondClickScoresNothing(g: GameVal, p1: Point, t1: int, p2: Point, t2: int)
    requires ClickStep(g, p1, t1).hits == g.hits + 1
    ensures ClickStep(ClickStep(g, p1, t1), p2, t2) == ClickStep(g, p1, t1)
  {
  }

  lemma EventStepCounters(g: GameVal, e: Event, ticks: int)
    ensures EventStep(g, e, ticks).hits >= g.hits
    ensures EventStep(g, e, ticks).misses >= g.misses
    ensures EventStep(g, e, ticks).hits + EventStep(g, e, ticks).misses
      <= g.hits + g.misses + (if IsPrimaryClick(e) then 1 else 0)
    ensures EventStep(g, e, ticks).nextSpawnTime == g.nextSpawnTime
    ensures EventStep(g, e, ticks).soundSupported == g.soundSupported
    ensures EventStep(g, e, ticks).zombie.Some? == g.zombie.Some?
    ensures g.zombie.None? ==>
      EventStep(g, e, ticks).hits == g.hits && EventStep(g, e, ticks).misses == g.misses
    ensures EventStep(g, e, ticks).hits == g.hits ==> EventStep(g, e, ticks).zombie == g.zombie
  {
  }

  /**
   * Over one frame's events: counters never decrease, `hits + misses` rises
   * by at most the number of primary clicks, nothing is counted without a
   * zombie, and the zombie slot and spawn timer are untouched.
   */
  lemma {:induction false} EventsStepCounters(g: GameVal, es: seq<Event>, ts: seq<int>)
    requires |es| == |ts|
    ensures EventsStep(g, es, ts).hits >= g.hits
    ensures EventsStep(g, es, ts).misses >= g.misses
    ensures EventsStep(g, es, ts).hits + EventsStep(g, es, ts).misses
      <= g.hits + g.misses + ClickCount(es)
    ensures EventsStep(g, es, ts).nextSpawnTime == g.nextSpawnTime
    ensures EventsStep(g, es, ts).soundSupported == g.soundSupported
    ensures EventsStep(g, es, ts).zombie.Some? == g.zombie.Some?
    ensures g.zombie.None? ==>
      EventsStep(g, es, ts).hits == g.hits && EventsStep(g, es, ts).misses == g.misses
    decreases |es|
  {
    if |es| > 0 {
      var n := |es| - 1;
      EventsStepCounters(g, es[..n], ts[..n]);
      EventStepCounters(EventsStep(g, es[..n], ts[..n]), es[n], ts[n]);
    }
  }

  /**
   * No two clicks of one frame both score: a frame's events raise `hits` by
   * at most one, only against a zombie that was clickable when the frame
   * began, and afterwards that zombie has its hit registered.
   */
  lemma {:induction false} OneHitPerFrame(g: GameVal, es: seq<Event>, ts: seq<int>)
    requires |es| == |ts|
    ensures EventsStep(g, es, ts).hits <= g.hits + 1
    ensures EventsStep(g, es, ts).hits == g.hits ==> EventsStep(g, es, ts).zombie == g.zombie
    ensures EventsStep(g, es, ts).hits == g.hits + 1 ==>
      g.zombie.Some? && Clickable(g.zombie.value) &&
      EventsStep(g, es, ts).zombie.Some? && EventsStep(g, es, ts).zombie.value.hitRegistered
    ensures g.zombie.Some? && g.zombie.value.hitRegistered ==> EventsStep(g, es, ts).hits == g.hits
    decreases |es|
  {
    if |es| > 0 {
      var n := |es| - 1;
      var m := EventsStep(g, es[..n], ts[..n]);
      OneHitPerFrame(g, es[..n], ts[..n]);
      EventsStepCounters(g, es[..n], ts[..n]);
      EventStepCounters(m, es[n], ts[n]);
      if m.hits == g.hits + 1 {
        assert !Clickable(m.zombie.value);
      }
    }
  }

  lemma EventStepPreservesInvariant(g: GameVal, e: Event, ticks: int)
    requires GameInvariant(g)
    ensures GameInvariant(EventStep(g, e, ticks))
  {
  }

  lemma {:induction false} EventsStepPreservesInvariant(g: GameVal, es: seq<Event>, ts: seq<int>)
    requires |es| == |ts|
    requires GameInvariant(g)
    ensures GameInvariant(EventsStep(g, es, ts))
    decreases |es|
  {
    if |es| > 0 {
      var n := |es| - 1;
      EventsStepPreservesInvariant(g, es[..n], ts[..n]);
      EventStepPreservesInvariant(EventsStep(g, es[..n], ts[..n]), es[n], ts[n]);
    }
  }

  // ---------------------------------------------------------------------
  // Lemmas about frames and the whole loop
  // ---------------------------------------------------------------------

  /** Every frame keeps the invariant: a held zombie is well formed and never dead. */
  lemma FramePreservesInvariant(g: GameVal, f: FrameInput)
    requires ValidInput(f)
    requires GameInvariant(g)
    ensures GameInvariant(FrameStep(g, f))
  {
    EventsStepPreservesInvariant(g, f.events, f.eventTicks);
  }

  /** Per frame: counters never decrease and at most one hit is scored. */
  lemma FrameCounters(g: GameVal, f: FrameInput)
    requires ValidInput(f)
    ensures FrameStep(g, f).hits >= g.hits && FrameStep(g, f).misses >= g.misses
    ensures FrameStep(g, f).hits <= g.hits + 1
    ensures FrameStep(g, f).hits + FrameStep(g, f).misses <= g.hits + g.misses + ClickCount(f.events)
    ensures FrameStep(g, f).soundSupported == g.soundSupported
  {
    EventsStepCounters(g, f.events, f.eventTicks);
    OneHitPerFrame(g, f.events, f.eventTicks);
  }

  /**
   * A zombie created in a frame is still spawning when the frame ends: it
   * takes its clock reading after the frame's `now`, so the update of the
   * same frame sees no time in state.
   */
  lemma NewZombieStaysSpawning(g: GameVal, f: FrameInput)
    requires ValidInput(f)
    requires g.zombie.None? && f.now >= g.nextSpawnTime
    ensures FrameStep(g, f).zombie.Some?
    ensures FrameStep(g, f).zombie.value ==
      Spawned(SPAWN_POINTS[f.spawnIndex], f.spawnTicks, f.lifetime)
  {
  }

  function TotalClicks(inputs: seq<FrameInput>): nat
    decreases |inputs|
  {
    if |inputs| == 0 then 0 else ClickCount(inputs[0].events) + TotalClicks(inputs[1..])
  }

  /**
   * Over a whole run: the invariant holds throughout, counters never
   * decrease, `hits + misses` rises by at most the number of clicks, and
   * `hits` by at most one per frame.
   */
  lemma {:induction false} PlayProperties(g: GameVal, inputs: seq<FrameInput>)
    requires ValidRun(inputs)
    requires GameInvariant(g)
    ensures GameInvariant(Play(g, inputs))
    ensures Play(g, inputs).hits >= g.hits && Play(g, inputs).misses >= g.misses
    ensures Play(g, inputs).hits + Play(g, inputs).misses <= g.hits + g.misses + TotalClicks(inputs)
    ensures Play(g, inputs).hits <= g.hits + |inputs|
    decreases |inputs|
  {
    if |inputs| > 0 && g.running {
      var g' := FrameStep(g, inputs[0]);
      FramePreservesInvariant(g, inputs[0]);
      FrameCounters(g, inputs[0]);
      PlayProperties(g', inputs[1..]);
    }
  }

  /** A click at distance 43 (under 0.9 of the radius) on a spawning zombie scores a hit. */
  lemma HitScenario()
    ensures var g := Initial(false).(zombie := Some(Spawned(SPAWN_POINTS[0], 0, 1000)));
      var r := EventStep(g, MouseDown(PRIMARY_BUTTON, Point(193, 160)), 50);
      r.hits == 1 && r.misses == 0 && r.zombie.Some? &&
      r.zombie.value.hitRegistered && r.zombie.value.state == Despawning &&
      r.zombie.value.stateTime == 50
  {
  }

  /** A click at distance 46 (beyond 0.95 of the radius) on an alive zombie is a miss. */
  lemma MissScenario(z: ZombieVal)
    requires z.x == 150 && z.y == 160 && z.radius == ZOMBIE_BASE_RADIUS && z.state == Alive
    ensures var g := Initial(false).(zombie := Some(z));
      EventStep(g, MouseDown(PRIMARY_BUTTON, Point(150, 206)), 70) == g.(misses := 1)
  {
  }

  // ---------------------------------------------------------------------
  // The game object
  // ---------------------------------------------------------------------

  class Game {
    var hits: nat
    var misses: nat
    var zombie: Zombie?
    var nextSpawnTime: int
    var running: bool
    var muted: bool
    const soundSupported: bool

    function Model(): GameVal
      reads this, zombie
    {
      GameVal(hits, misses, if zombie == null then None else Some(zombie.Model()),
              nextSpawnTime, running, muted, soundSupported)
    }

    ghost predicate Valid()
      reads this, zombie
    {
      GameInvariant(Model())
    }

    constructor (soundSupported: bool)
      ensures Model() == Initial(soundSupported) && Valid()
    {
      hits, misses := 0, 0;
      zombie := null;
      nextSpawnTime := 0;
      running, muted := true, false;
      this.soundSupported := soundSupported;
    }

    /** A primary-button click at `p`; `ticks` is the clock reading `register_hit` takes. */
    method HandleClick(p: Point, ticks: int)
      modifies this, zombie
      ensures zombie == old(zombie)
      ensures Model() == ClickStep(old(Model()), p, ticks)
    {
      if zombie != null && zombie.IsClickable() && zombie.HitTest(p) {
        zombie.RegisterHit(ticks);
        hits := hits + 1;
      } else if zombie != null && (zombie.state == Spawning || zombie.state == Alive) {
        misses := misses + 1;
      }
    }

    method HandleEvent(e: Event, ticks: int)
      modifies this, zombie
      ensures zombie == old(zombie)
      ensures Model() == EventStep(old(Model()), e, ticks)
    {
      match e
      case Quit =>
        running := false;
      case KeyDown(k) =>
        if k == Escape {
          running := false;
        } else if k == KeyM && soundSupported {
          muted := !muted;
        }
      case MouseDown(button, p) =>
        if button == PRIMARY_BUTTON {
          HandleClick(p, ticks);
        }
      case OtherEvent =>
    }

    method SpawnIfDue(now: int, ticks: int, index: int, lifetime: int)
      requires 0 <= index < |SPAWN_POINTS|
      requires SPAWN_MIN_MS <= lifetime <= SPAWN_MAX_MS
      modifies this
      ensures zombie == old(zombie) || fresh(zombie)
      ensures Model() == SpawnStep(old(Model()), now, ticks, index, lifetime)
    {
      if zombie == null && now >= nextSpawnTime {
        zombie := new Zombie(SPAWN_POINTS[index], ticks, lifetime);
      }
    }

    method UpdateZombie(now: int, gap: int)
      requires SPAWN_GAP_MIN_MS <= gap <= SPAWN_GAP_MAX_MS
      modifies this, zombie
      ensures zombie == null || zombie == old(zombie)
      ensures Model() == UpdateStep(old(Model()), now, gap)
    {
      if zombie != null {
        zombie.Update(now);
        if zombie.state == Dead {
          zombie := null;
          nextSpawnTime := now + gap;
        }
      }
    }

    /** One iteration of the main loop: events in order, then the spawn check, then the update. */
    method Frame(f: FrameInput)
      requires ValidInput(f)
      modifies this, zombie
      ensures zombie == null || zombie == old(zombie) || fresh(zombie)
      ensures Model() == FrameStep(old(Model()), f)
      ensures old(Valid()) ==> Valid()
    {
      ghost var before := Model();
      var i := 0;
      while i < |f.events|
        invariant 0 <= i <= |f.events|
        invariant zombie == old(zombie)
        invariant Model() == EventsStep(old(Model()), f.events[..i], f.eventTicks[..i])
      {
        assert f.events[..i + 1][..i] == f.events[..i];
        assert f.eventTicks[..i + 1][..i] == f.eventTicks[..i];
        HandleEvent(f.events[i], f.eventTicks[i]);
        i := i + 1;
      }
      assert f.events[..i] == f.events && f.eventTicks[..i] == f.eventTicks;
      SpawnIfDue(f.now, f.spawnTicks, f.spawnIndex, f.lifetime);
      UpdateZombie(f.now, f.gap);
      if GameInvariant(before) {
        FramePreservesInvariant(before, f);
      }
    }

    /**
     * The `while running` loop over a finite run of frames. It returns how
     * many frames ran; it stops early only once `running` is false.
     */
    method Run(inputs: seq<FrameInput>) returns (frames: nat)
      requires ValidRun(inputs)
      modifies this, zombie
      ensures frames <= |inputs| && (frames < |inputs| ==> !running)
      ensures Model() == Play(old(Model()), inputs)
      ensures old(Valid()) ==> Valid()
    {
      ghost var before := Model();
      if GameInvariant(before) {
        PlayProperties(before, inputs);
      }
      frames := 0;
      while running && frames < |inputs|
        invariant frames <= |inputs|
        invariant zombie == null || zombie == old(zombie) || fresh(zombie)
        invariant Play(old(Model()), inputs) == Play(Model(), inputs[frames..])
      {
        assert inputs[frames..][1..] == inputs[frames + 1..];
        Frame(inputs[frames]);
        frames := frames + 1;
      }
    }
  }
}
