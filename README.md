# Whack-a-Zombie core in Dafny

This project models the gameplay core of Whack-a-Zombie, a single-target reflex game written with pygame. One zombie at a time appears at one of twelve fixed spawn points and lives for a random 800–1500 ms. The player must click it before it despawns. The HUD shows hits, misses and accuracy.

The model has three files:

- `wrappers.dfy` holds the `Option` type used for the single zombie slot.
- `zombies.dfy` (module `Zombies`) models the zombie's lifecycle state machine `spawning -> alive -> despawning -> dead`. It covers `update(now)`, the one-shot `hit_registered` flag, `register_hit`, `is_clickable` and the circular `hit_test`. Each operation is a function on the value `ZombieVal`. The class `Zombie` keeps the same fields and mutates them in place, and its methods are proved to perform exactly those functions.
- `game.dfy` (module `GameLoop`) models the state of the main loop: `hits`, `misses`, the zombie slot, `next_spawn_time`, `running` and `muted`. It covers each input event, the spawn check, the update that releases a dead zombie and schedules the next spawn, one frame, a finite run of frames, and the accuracy shown on the HUD. The class `Game` holds the state in fields. `Game.Frame` walks one frame's events with a loop, and `Game.Run` is the `while running` loop over a given sequence of frames.

The clock and the random source are parameters:

- `now` is the frame's clock reading.
- `ticks` is the extra clock reading that `register_hit` takes, and `spawnTicks` the one the `Zombie` constructor takes.
- The spawn point index, the lifetime and the pause before the next spawn are inputs, each restricted by a `requires` to the range the source draws it from.

`register_hit` and `Zombie.__init__` read the clock again themselves (whack_a_zombie.py:87, 117), so the model takes those readings as separate parameters, not the frame's `now`. `ClockOrdered` and `ValidRun` require them in the order the source takes them. Within a frame, `now` comes first, then one reading per event in arrival order, then the new zombie's reading. From one frame to the next the clock never runs backwards.

`hit_test` compares the squared distance with `(48 * 0.95) ** 2` in floating point. The model computes `400 * d2 <= 361 * r * r` over integers. `InHitbox` proves this equal to the comparison over exact reals. `HitboxAtBaseRadius` proves that at radius 48 it means `d2 <= 2079`, which is also what the float comparison gives, since (45.6)^2 = 2079.36.

## Model

| member | source | states |
|---|---|---|
| `Zombies.Rank` | whack_a_zombie.py:89 | ranks the four states in lifecycle order; dead alone has rank 3 |
| `Zombies.Spawned` | whack_a_zombie.py:84-91 | a new zombie is spawning, not hit, has the base radius 48, the given position, spawn time and state time equal to the creation clock reading, and exactly the drawn lifetime, which lies in [800, 1500] |
| `Zombies.Zombie.constructor` | whack_a_zombie.py:84-91 | the new object holds exactly the spawned value |
| `Zombies.Clickable` | whack_a_zombie.py:106-107 | `is_clickable`: exactly while the hit flag is clear and the state is before despawning in the lifecycle order |
| `Zombies.Zombie.IsClickable` | whack_a_zombie.py:106-107 | the object is clickable exactly while its hit flag is clear and its state is spawning or alive |
| `Zombies.Zombie.HitTest` | whack_a_zombie.py:109-111 | the object's hit test holds iff the squared distance from its position is at most (0.95 radius)^2 over the reals |
| `Zombies.Updated` | whack_a_zombie.py:93-104 | `update` never touches position, radius, spawn time, lifetime or the hit flag; it leaves the state where it is or moves it exactly one step forward; dead stays unchanged |
| `Zombies.Zombie.Update` | whack_a_zombie.py:93-104 | the object's new fields are the result of `Updated` on its old fields |
| `Zombies.UpdateTransitions` | whack_a_zombie.py:93-104 | spawning becomes alive iff 180 ms passed in state; alive becomes despawning iff the lifetime passed since spawn (not since state entry); despawning becomes dead iff 220 ms passed in state; if the state does not change, no field changes |
| `Zombies.UpdatesMoveForward` | whack_a_zombie.py:93-104 | over any sequence of updates the state rank never falls and rises by at most one per update; the body and the hit flag are preserved |
| `Zombies.LaterNeverEarlier` | whack_a_zombie.py:93-104 | for any sequence of update times, the state after a longer prefix is never earlier in the lifecycle than after a shorter one |
| `Zombies.DeadIsTerminal` | whack_a_zombie.py:102-104 | no sequence of updates changes a dead zombie |
| `Zombies.WithHit` | whack_a_zombie.py:113-117 | `register_hit` sets the hit flag, forces despawning with the state time equal to its clock reading, keeps the body, and leaves the zombie not clickable |
| `Zombies.Zombie.RegisterHit` | whack_a_zombie.py:113-117 | the object's new fields are the result of `WithHit` on its old fields |
| `Zombies.HitIsFinal` | whack_a_zombie.py:106-117 | after `register_hit`, under any later sequence of updates, the hit flag stays set, the zombie is never clickable, and it is despawning or dead |
| `Zombies.InHitbox` | whack_a_zombie.py:109-111 | the integer hitbox test holds iff the squared distance is at most (0.95 radius)^2 over the reals |
| `Zombies.HitboxIgnoresLifecycle` | whack_a_zombie.py:109-111 | the hitbox depends only on position and radius: update, register_hit, or any change of state, state time or hit flag leaves it unchanged |
| `Zombies.HitboxAtBaseRadius` | whack_a_zombie.py:109-111 | at radius 48 a click hits iff its squared distance is at most 2079 |
| `Zombies.ExpiryScenario` | whack_a_zombie.py:93-104 | a zombie spawned at 0 with lifetime 1000 is alive at 180 and 999, despawning at 1000 and 1219, dead at 1220 |
| `GameLoop.Initial` | whack_a_zombie.py:180-186 | the loop starts with 0 hits, 0 misses (accuracy 0), an empty slot, spawn timer 0, running and unmuted, keeps the given sound support, and satisfies the loop invariant |
| `GameLoop.Targetable` | whack_a_zombie.py:221 | spawning or alive, i.e. before despawning in the lifecycle order; every clickable zombie is targetable |
| `GameLoop.ClickStep` | whack_a_zombie.py:208-222 | a click never lowers a counter, raises hits + misses by at most one, keeps the slot occupied or empty as it was; a held zombie keeps its body, never moves back in the lifecycle (the clickable guard keeps a hit from reviving a dead zombie) and never loses its hit flag; nothing else changes |
| `GameLoop.ClickOutcomes` | whack_a_zombie.py:208-222 | clickable and inside the hitbox: hits + 1 and register_hit, misses unchanged; spawning or alive but outside the hitbox: misses + 1 and the zombie untouched; no zombie or a despawning one: nothing changes |
| `GameLoop.ClickableIffTargetable` | whack_a_zombie.py:106-107 | while the loop invariant holds, a held zombie is clickable exactly when it is spawning or alive |
| `GameLoop.SecondClickScoresNothing` | whack_a_zombie.py:209-212 | after a click that scored, any further click changes nothing |
| `GameLoop.EventStep` | whack_a_zombie.py:200-222 | quit and escape stop the loop, only they do, and nothing restarts it; mute flips exactly on M with sound supported; a primary click is `ClickStep`; any other event leaves counters and zombie alone; timer and slot occupancy kept |
| `GameLoop.EventsStep` | whack_a_zombie.py:200 | a frame's events in arrival order never set `running` back to true, stop it exactly when one of them is a quit or Escape, keep the spawn timer and slot occupancy, and move a held zombie only forward (same body, rank no lower, hit flag never cleared) |
| `GameLoop.EventStepCounters` | whack_a_zombie.py:200-222 | one event: counters never fall, their sum rises by at most one and only for a primary click, nothing counts without a zombie, the spawn timer and slot occupancy are unchanged |
| `GameLoop.EventsStepCounters` | whack_a_zombie.py:200-222 | one frame's events: counters never fall, their sum rises by at most the number of primary clicks, nothing counts without a zombie, the spawn timer and slot occupancy are unchanged |
| `GameLoop.OneHitPerFrame` | whack_a_zombie.py:200-222 | one frame's events raise hits by at most one, only against a zombie clickable at the frame's start, which ends with its hit registered; without a hit the zombie is untouched |
| `GameLoop.EventStepPreservesInvariant` | whack_a_zombie.py:200-222 | one event keeps the loop invariant |
| `GameLoop.EventsStepPreservesInvariant` | whack_a_zombie.py:200-222 | one frame's events keep the loop invariant (a held zombie is well formed, not dead, and hit only while despawning) |
| `GameLoop.SpawnStep` | whack_a_zombie.py:224-227 | a zombie appears only when the slot is empty and now >= next_spawn_time, and then always; it is at a spawn point, spawning, not hit, lifetime in [800, 1500], and equals the zombie created from the drawn point, clock reading and lifetime; a held zombie is never replaced; nothing else changes |
| `GameLoop.UpdateStep` | whack_a_zombie.py:229-235 | a zombie is released exactly when its update makes it dead, and then the next spawn is set to now + gap, within [now + 220, now + 520]; otherwise it is updated and the timer kept; counters unchanged |
| `GameLoop.FrameStep` | whack_a_zombie.py:197-235 | one frame never sets `running` back to true, stops it exactly when a quit or Escape is among its events, never leaves a dead zombie in the slot, and a zombie held before and after the frame has moved only forward (same body, rank no lower, hit flag never cleared) |
| `GameLoop.Play` | whack_a_zombie.py:196-235 | a stopped loop runs no frame; a run never sets `running` back to true, stops exactly when some frame holds a quit or Escape event, and keeps sound support |
| `GameLoop.NewZombieStaysSpawning` | whack_a_zombie.py:224-232 | a zombie created in a frame ends that frame exactly as created, still spawning, because it reads the clock after the frame's `now` |
| `GameLoop.FramePreservesInvariant` | whack_a_zombie.py:197-235 | a whole frame keeps the loop invariant |
| `GameLoop.FrameCounters` | whack_a_zombie.py:197-235 | per frame counters never fall, hits rise by at most one, and hits + misses by at most the number of primary clicks |
| `GameLoop.PlayProperties` | whack_a_zombie.py:197-235 | over any run of frames the invariant holds, counters never fall, hits + misses rise by at most the total number of clicks and hits by at most one per frame |
| `GameLoop.Accuracy` | whack_a_zombie.py:245-246 | accuracy is 0 when there were no clicks counted, otherwise exactly 100 * hits / (hits + misses), and always within [0, 100] |
| `GameLoop.HitScenario` | whack_a_zombie.py:208-222 | a click at distance 43 on a spawning zombie at time 50 scores: hits 1, hit flag set, despawning since 50 |
| `GameLoop.MissScenario` | whack_a_zombie.py:208-222 | a click at distance 46 on an alive zombie counts one miss and leaves the zombie untouched |
| `GameLoop.Game.constructor` | whack_a_zombie.py:180-186 | the loop starts with no hits, no misses, no zombie, spawn timer 0, running and unmuted |
| `GameLoop.Game.HandleClick` | whack_a_zombie.py:208-222 | the object's new state is `ClickStep` of its old state; the zombie reference is unchanged |
| `GameLoop.Game.HandleEvent` | whack_a_zombie.py:200-222 | quit and escape stop the loop, M toggles mute only when sound is supported, a primary click is `ClickStep`, anything else changes nothing |
| `GameLoop.Game.SpawnIfDue` | whack_a_zombie.py:224-227 | the new state is `SpawnStep` of the old; a new zombie object is freshly allocated |
| `GameLoop.Game.UpdateZombie` | whack_a_zombie.py:229-235 | the new state is `UpdateStep` of the old; the slot is kept or emptied, never refilled |
| `GameLoop.Game.Frame` | whack_a_zombie.py:197-235 | handling events in order, then spawning, then updating yields `FrameStep` of the old state, and keeps the loop invariant |
| `GameLoop.Game.Run` | whack_a_zombie.py:196-235 | the loop runs frames while running, stops early only once running is false, and ends in `Play` of the starting state, with the loop invariant kept |

## Left out

- `Zombie.draw` is left out. It computes a floating-point animation scale from the state and the state time (whack_a_zombie.py:122-131) and issues pygame drawing calls at the zombie's position and scaled radius. That is purely cosmetic: `HitboxIgnoresLifecycle` shows the hitbox ignores the state, the state time and the hit flag, so the drawn shrinking or growing never changes what a click hits.
- `try_make_sound`, sound playback and the swallowed playback exceptions are left out: audio synthesis and playback are I/O. Sound support is a constructor parameter of `Game`, and `muted` is a field toggled as the source does.
- The window, background, fonts, HUD text rendering, `display.flip`, `clock.tick`, `pygame.quit` and `sys.exit` are left out as I/O.
- The clock and the `random` module are left out as implementations. Every clock reading and every random draw is a parameter. Each random draw is restricted to the range the source draws it from, and the clock readings to the order in which the source takes them. The model does not assume the clock advances by any particular amount between readings.
- The pygame event queue is modelled as a sequence of events per frame. Event kinds other than quit, key-down and mouse-down are one `OtherEvent` that does nothing.
- GameLoop.Game.Run: the `while running` loop is modelled over a finite, given sequence of frames rather than an unbounded one.
- GameLoop.Accuracy: computed over exact reals, without the floating-point rounding of `hits / total * 100.0` or the one-decimal formatting of the HUD.
- Zombies.InHitbox: the integer form reproduces the floating-point comparison exactly for the radius the game uses (48). For other radii it matches the exact real formula, not IEEE double rounding.
