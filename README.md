# Rhythm game core: a Dafny model

This project models the game-state core of the rhythm game in
`BeatGame/taigu.py`. Round hit objects are spawned on the beat at the right
edge of the window and scroll left. The player clicks them while they are
near the target line; each hit scores 10 points and launches a firework. Hit
objects that leave the screen and fireworks that run out of frames are removed.

The model has four modules:

- `Rules` (`rules.dfy`) holds the game's constants and value views of a hit
  object (`HitState`) and a firework (`FwState`). It also holds the rules the
  loop applies, stated on those values and on lists of them:
  - the hit test and the timing window;
  - resolving a click against the live list (`ClickAll`, `Qualifying`, `Bursts`);
  - movement and removal (`Advance`);
  - firework expiry (`Expire`);
  - the particle angles (`Range`, `ParticleAngles`);
  - the beat clock (`SpawnDue`, `SpawnRun`);
  - the events of one frame (`ClickEvents`, `EventHits`, `EventBursts`);
  - whole frames on a value of the whole game state (`World`, `NextWorld`, `PlayFrames`).
- `Entities` (`entities.dfy`) holds the classes `HitObject` and `Firework`,
  whose fields the game changes in place, each with a `View()` onto its value state.
- `Lists` (`lists.dfy`) covers distinctness of object lists, Python's
  `list.remove`, and the source's "remove while walking a snapshot" loop.
- `Game` (`game.dfy`) holds the class `GameState`, which owns what `main`
  keeps in local variables: the live hit objects, the live fireworks, the
  score and the last beat time. Its methods are the parts of one pass of the
  `while running` loop:
  - `HandleEvents` / `HandleEvent` / `HandleClick` (the event loop and click scoring);
  - `MaybeSpawn` (the beat clock);
  - `Step` (update and removal);
  - `RunFrame` (all of them in the source's order);
  - `Run` (the `while running` loop itself, over a given sequence of frames).

Each method is proved against the value-level functions in `Rules`. Its
`ensures` gives the new state as a function of the old one, and the lemmas
in `Rules` and `Lists` prove what those functions promise.

`GameState.Valid()` is the invariant every method keeps:
- every live hit object has the spawner's attributes, lies in
  `-size <= x <= SCREEN_WIDTH` and satisfies `scored ==> counted`;
- every live firework has size 20 and between 1 and 50 frames left;
- the score is a non-negative multiple of 10;
- no object is listed twice.

A second predicate, `GameState.Owns()`, says that the game's footprint
`Repr` holds the game and every live hit object and firework. `RunFrame` and
`Run` may change what is in `Repr` and only add new objects to it, so a caller
can run one frame after another. `GameState.State()` is the whole game as a
`World` value, and `GameState.StateWellFormed` says that `Valid()` makes that
value well formed.

`generate_particles` makes `len(range(0, 360, 360 // size))` particles: 20 for
the size 20 the game uses (`Rules.ParticleCountTwenty`), but not `size` in
general (`Rules.ParticleCount` gives the count for every size from 1 to 360;
size 7 gives 8).

Time is an integer tick count. The beat interval is a positive integer
parameter of the game, not the float `60 / BPM` seconds.

## Model

| member | source | states |
|---|---|---|
| Rules.HitState.Clicked | BeatGame/taigu.py:59-62 | The hit test `clicked`: the squared distance from the centre to the point is at most `size` squared. Its properties are in `ClickedDisc` and `ClickedBounded`. |
| Rules.HitState.InWindow | BeatGame/taigu.py:114 | The timing window `abs(x - LINE_X) <= WIN_AREA_WIDTH // 2`. |
| Rules.HitState.Qualifies | BeatGame/taigu.py:112-116 | The three conditions under which a click scores an object: clicked, inside the window, not yet counted. |
| Rules.HitState.Resolve | BeatGame/taigu.py:112-119 | An object after a click: both flags set if it qualifies, otherwise unchanged. |
| Rules.HitState.Moved | BeatGame/taigu.py:52-53 | `update`: `x` reduced by `speed`, everything else kept. |
| Rules.HitState.OnScreen | BeatGame/taigu.py:151 | The object stays live while `x >= -size`; the walk removes it once `x < -size`. |
| Rules.ClickedDisc | BeatGame/taigu.py:59-62 | The hit test is a closed disc. The centre and the rim points on both axes count as hits (distance equal to `size` is a hit), and one unit beyond the rim misses. |
| Rules.ClickedBounded | BeatGame/taigu.py:59-62 | Every point that passes the hit test lies within `size` of the centre on each axis. |
| Rules.InWindowBand | BeatGame/taigu.py:114 | The timing window `abs(x - LINE_X) <= WIN_AREA_WIDTH // 2` is exactly the band `85 <= x <= 115`. |
| Rules.Burst | BeatGame/taigu.py:120-131 | The firework a scored object launches: at the object's position, size 20, 50 frames, with the angles `generate_particles` gives for size 20. |
| Rules.Bursts | BeatGame/taigu.py:120-131 | The fireworks a click launches: one per scored object, in order, at that object's position. Each is well formed (size 20, duration 50). |
| Rules.ClickAll | BeatGame/taigu.py:111-119 | The hit objects after one click: each one resolved, in list order, the list length kept. Per object it is `ClickAllAt`. |
| Rules.Qualifying | BeatGame/taigu.py:111-117 | The objects one click scores, in list order, never more than the list holds. Its members are those of `QualifyingMembers`. |
| Rules.ClickAllAt | BeatGame/taigu.py:111-119 | A click changes an object exactly when it is clicked, in the window and not yet counted. Then it sets `counted` and `scored` and nothing else. |
| Rules.CountedIsFinal | BeatGame/taigu.py:115 | An object already counted is left exactly as it was by any click. |
| Rules.ClickAllKeeps | BeatGame/taigu.py:111-119 | A click keeps every object's position, size and speed. It keeps a well-formed list well formed, so `scored ==> counted` survives clicks. |
| Rules.QualifyingMembers | BeatGame/taigu.py:111-117 | The objects a click scores are exactly the members of the live list that qualify. |
| Rules.ClickedTwiceScoresNothing | BeatGame/taigu.py:111-119 | After a click nothing qualifies for the same click again, and repeating the click changes no object. |
| Rules.CentreClickScoresOnce | BeatGame/taigu.py:111-119 | A click at the centre of an uncounted object on the target line scores it and sets both flags. The same click again scores nothing. |
| Rules.LateClickMisses | BeatGame/taigu.py:114 | A click on an object outside the timing window scores nothing and leaves `counted` false. |
| Rules.ClickStep | BeatGame/taigu.py:111-119 | The click loop advanced by one object extends the resolved list and the scored list by that object's share. |
| Rules.AwardKeepsMultiple | BeatGame/taigu.py:117 | Adding whole awards of 10 to a score that starts at 0 keeps it a non-negative multiple of 10. |
| Rules.Advance | BeatGame/taigu.py:148-152 | The live hit objects after a frame: each moved, those with `x < -size` dropped, order kept; never longer than before. Its members are those of `AdvanceMembers`. |
| Rules.AdvanceAppend | BeatGame/taigu.py:148-152 | Moving and removing work object by object: the frame update of a concatenation is the concatenation of the updates, so survivors keep their order. |
| Rules.AdvanceMembers | BeatGame/taigu.py:148-152 | After a frame an object is live if and only if it is the moved version of a live object and `x >= -size`. No survivor is dropped and no removed object survives. |
| Rules.AdvanceKeepsWellFormed | BeatGame/taigu.py:148-152 | A frame keeps every live hit object well formed. |
| Rules.MoveNClosedForm | BeatGame/taigu.py:52-53 | After n updates `x == x0 - n * speed`, and no other attribute has changed. |
| Rules.HitObjectLifetime | BeatGame/taigu.py:148-152 | A lone object is still live after frame n exactly when `x0 - n * speed >= -size`. It is removed in the first frame that takes it past `-size`, and not before. |
| Rules.FwState.Ticked | BeatGame/taigu.py:158 | One frame of a firework's life: `duration` goes down by one and nothing else changes. |
| Rules.FwState.Alive | BeatGame/taigu.py:159 | A firework stays live while `duration > 0`; the walk removes it once `duration <= 0`. |
| Rules.Expire | BeatGame/taigu.py:155-160 | The live fireworks after a frame: each one frame older, those with `duration <= 0` dropped, order kept; never longer than before. Its members are those of `ExpireMembers`. |
| Rules.ExpireMembers | BeatGame/taigu.py:155-160 | After a frame a firework is live if and only if it has frames left and was live one frame younger. |
| Rules.ExpireKeepsWellFormed | BeatGame/taigu.py:155-160 | A frame keeps every live firework well formed. |
| Rules.FireworkLifetime | BeatGame/taigu.py:155-160 | A firework created with d frames is live, d - n frames left, for n < d frames. It is removed on frame d. |
| Rules.Range | BeatGame/taigu.py:76 | Python's `range(start, stop, step)` for a positive step. Its shape is `RangeShape`. |
| Rules.ParticleAngles | BeatGame/taigu.py:74-76 | The particle angles of a firework: `range(0, 360, 360 // size)`. |
| Rules.RangeShape | BeatGame/taigu.py:76 | `range(start, stop, step)` lists `start + k * step` and stops at the first such value not below `stop`. |
| Rules.ParticleCountTwenty | BeatGame/taigu.py:74-76 | A firework of size 20 gets 20 particles, at angles 0, 18, ..., 342. |
| Rules.ParticleCount | BeatGame/taigu.py:74-76 | For every size from 1 to 360 the particle count is 360 divided by the step `360 // size`, rounded up. |
| Rules.ParticleCountSeven | BeatGame/taigu.py:74-76 | The count is `len(range(0, 360, 360 // size))`, which is not `size` in general: size 7 gives 8 particles. |
| Rules.SpawnDue | BeatGame/taigu.py:136 | A new hit object is due when `now - lastBeat >= interval`. |
| Rules.Spawned | BeatGame/taigu.py:137-143 | The object the beat clock spawns: at `x = 800` on the target line (`y = 290`), size 20, speed 3, neither counted nor scored. |
| Rules.SpawnRun | BeatGame/taigu.py:134-145 | The beat clock over a run of frames at the given times: how many objects it spawns and the last beat afterwards, deciding each frame by `SpawnDue` against the last beat so far. |
| Rules.BeatClockIsSpawnRun | BeatGame/taigu.py:134-145 | The game's own beat clock is `SpawnRun`: after any run of frames, `PlayFrames` leaves the last beat that `SpawnRun` over the frames' times gives. |
| Rules.PlayBeatProgress | BeatGame/taigu.py:134-145 | No catch-up in the game itself: over any run of frames the last beat moves forward by at least one interval per spawn and is the start time or one frame's time. |
| Rules.SpawnRunProgress | BeatGame/taigu.py:134-145 | Over any run of frames, each spawn moves the last beat forward by at least one interval. The last beat is always the start time or one of the frame times. By `BeatClockIsSpawnRun` this holds of the game (`PlayBeatProgress`). |
| Rules.SpawnCountBound | BeatGame/taigu.py:134-145 | No catch-up: within a span T after the last beat, at most T / interval objects are spawned, whatever the frame times. By `BeatClockIsSpawnRun` the game's beat clock takes the same decision in every frame, since the lemma holds for every prefix of the run. |
| Rules.QuitRequested | BeatGame/taigu.py:107-109 | Whether the event loop sets `running = False`: some event of the frame, taken in order, is a quit request. |
| Rules.EventScored | BeatGame/taigu.py:108-119 | The objects one event scores: for a mouse press, those that qualify, in list order; for any other event, none. |
| Rules.EventClick | BeatGame/taigu.py:108-119 | The hit objects after one event: a mouse press resolves every object, in list order, and keeps the list's length; any other event changes none. |
| Rules.ClickEvents | BeatGame/taigu.py:107-132 | The hit objects after all of a frame's events in order, each event seeing what the earlier ones left; the length is kept. |
| Rules.EventHits | BeatGame/taigu.py:107-132 | How many objects the frame's events score in all: each event adds the number it scores on the objects the earlier events left. |
| Rules.EventBursts | BeatGame/taigu.py:107-132 | The fireworks the frame's events launch: each event's bursts appended, in order, after the earlier events' ones. |
| Rules.QuitRequestedIn | BeatGame/taigu.py:107-109 | The event loop sees a quit request exactly when some event of the frame is a quit event. |
| Rules.EventStep | BeatGame/taigu.py:107-132 | The event loop advanced by one event: quit, hit objects, score and fireworks each extend by that event's effect. |
| Rules.DoubleClickScoresOnce | BeatGame/taigu.py:107-119 | Two identical clicks in one frame score what the first alone scores and leave the objects as the first left them. |
| Rules.NextWorld | BeatGame/taigu.py:103-160 | One pass of the loop on the whole state: the events in order, then the beat clock, then movement and expiry. |
| Rules.PlayFrames | BeatGame/taigu.py:102-160 | The whole state after a sequence of passes of the loop, in order. |
| Rules.ClickEventsKeepWellFormed | BeatGame/taigu.py:107-119 | Whatever the events, clicks keep the live hit objects well formed. |
| Rules.EventBurstsWellFormed | BeatGame/taigu.py:120-132 | Every firework a frame's events launch has size 20 and 50 frames. |
| Rules.NextWorldKeepsWellFormed | BeatGame/taigu.py:103-160 | One frame keeps the game's invariant: well-formed objects and fireworks, and the score a non-negative multiple of 10. |
| Rules.NextHitsWellFormed | BeatGame/taigu.py:105-160 | One frame keeps every hit object well formed: clicked, spawned, moved and filtered. |
| Rules.NextFwsWellFormed | BeatGame/taigu.py:105-160 | One frame keeps every firework well formed: launched, counted down and filtered. |
| Game.GameState.StateWellFormed | BeatGame/taigu.py:95-100 | The game's invariant on its objects implies the invariant on its value `State()`. |
| Rules.PlayKeepsWellFormed | BeatGame/taigu.py:102-160 | Any number of frames keeps the game's invariant, and the score never goes down. |
| Lists.RemoveFirst | BeatGame/taigu.py:152 | Python's `list.remove(v)`: drops the first element equal to `v`. Its effect is `RemoveFirstAt`. |
| Lists.RemovalWalk | BeatGame/taigu.py:148-160 | The source's removal loop: walks a snapshot and calls `remove` on the live list for every element to be dropped. Its result is `RemovalIsFilter`. |
| Lists.DistinctApart | BeatGame/taigu.py:144 | In a list without repeats, different positions hold different objects. |
| Lists.DistinctAppend | BeatGame/taigu.py:144 | Appending a new object to a list without repeats keeps it without repeats. |
| Lists.DistinctConcat | BeatGame/taigu.py:132 | Joining two repeat-free lists with no common element gives a repeat-free list. |
| Lists.RemoveFirstAt | BeatGame/taigu.py:152 | `list.remove(v)` on a list where v does not occur earlier takes out exactly that occurrence. |
| Lists.UndroppedDistinct | BeatGame/taigu.py:148-160 | Filtering a repeat-free list leaves a repeat-free list. |
| Lists.UndroppedMembers | BeatGame/taigu.py:148-160 | Only listed elements survive the filter. |
| Lists.RemovalIsFilter | BeatGame/taigu.py:148-160 | Walking a snapshot of a repeat-free list and calling `remove` on every dropped element leaves exactly the undropped elements, in their original order. |
| Entities.HitObject.constructor | BeatGame/taigu.py:43-50 | A new hit object has the given position, size and speed, and both flags false. |
| Entities.HitObject.Update | BeatGame/taigu.py:52-53 | `x` goes down by exactly `speed`; no other field changes. |
| Entities.Firework.constructor | BeatGame/taigu.py:66-72 | A new firework has the given origin, size and duration, and no particles. |
| Entities.Firework.GenerateParticles | BeatGame/taigu.py:74-79 | Appends one particle per angle of `range(0, 360, 360 // size)`, in order. Earlier particles are kept. |
| Entities.Firework.CountDown | BeatGame/taigu.py:158 | Takes exactly one frame off `duration`; nothing else changes. |
| Game.GameState.constructor | BeatGame/taigu.py:94-100 | The game starts with no hit objects, no fireworks, score 0 and the beat clock at the start time. The invariant holds. |
| Game.GameState.Run | BeatGame/taigu.py:102-160 | The game loop. It runs the frames in order while the game is running: it stops after the first frame with a quit request, or when the frames run out. The final state is `PlayFrames` of the initial one. The invariant is kept, and the game owns only its old objects and new ones. |
| Game.GameState.PlayNext | BeatGame/taigu.py:103-160 | One turn of the loop after frames without a quit: the state becomes `PlayFrames` of the frames so far, one more. The run stays free of quit requests exactly when this frame has none. The invariant is kept and the footprint only gains new objects. |
| Game.GameState.RunFrame | BeatGame/taigu.py:103-160 | One pass of the loop. It keeps the invariant, and the game goes on exactly when no event was a quit. A spawn happens exactly when one is due. The new state is `NextWorld` of the old one, and the footprint only gains new objects, so frames can be chained. |
| Game.GameState.FrameStep | BeatGame/taigu.py:103-160 | The work of one pass. The score grows by 10 per object the frame's events scored. The hit objects are those the events left, plus the spawned one, moved and filtered. The fireworks are the old ones plus those the events launched, counted down and filtered. Every live object was live before or is new. |
| Game.GameState.HandleEvents | BeatGame/taigu.py:107-132 | Handles the frame's events in order; a quit stops the game but later events are still handled. Hit objects, score and fireworks are exactly what the events taken in order make of them. |
| Game.GameState.HandleEvent | BeatGame/taigu.py:108-132 | A quit event is reported, a mouse press is resolved as a click, and any other event changes nothing. |
| Game.GameState.HandleClick | BeatGame/taigu.py:110-132 | Every qualifying object, in list order, gets both flags set, adds 10 to the score and launches one firework of size 20 and duration 50 at its position. Those fireworks are new and are appended after the live ones. The hit-object list is unchanged, and the invariant is kept. |
| Game.GameState.ScoreClick | BeatGame/taigu.py:111-119 | Resolves the click on every object; the score grows by 10 per scored object and stays a multiple of 10. Returns the scored objects in order. |
| Game.GameState.AddFireworks | BeatGame/taigu.py:120-132 | Appends one new firework per scored object, in order, after the live fireworks. |
| Game.GameState.MaybeSpawn | BeatGame/taigu.py:134-145 | Spawns exactly when `now - lastBeat >= interval`. Then it appends one new object at `(SCREEN_WIDTH, LINE_Y)` with both flags false and sets `lastBeat := now`. Otherwise nothing changes. At most one object per frame. |
| Game.GameState.Tick | BeatGame/taigu.py:134-160 | The beat clock followed by update and removal. The score does not change, and every live object was live before or is the spawned one. |
| Game.GameState.Step | BeatGame/taigu.py:147-160 | Hit objects are moved and filtered as `Advance` says; fireworks are counted down and filtered as `Expire` says. No object is added, and the invariant is kept. |
| Game.GameState.MoveHitObjects | BeatGame/taigu.py:147-152 | Every object moves by its speed, and the survivors are those with `x >= -size`, in order. The new list is exactly what the source's `remove` walk over the snapshot leaves behind. |
| Game.GameState.ExpireFireworks | BeatGame/taigu.py:154-160 | Every firework loses one frame, and the survivors are those with frames left, in order. The new list is exactly what the source's `remove` walk leaves behind. |
| Game.ClickEach | BeatGame/taigu.py:111-119 | The loop over the hit objects: each object ends up as the click resolves it, the scored objects are returned in order, and the score grows by 10 for each. |
| Game.Launch | BeatGame/taigu.py:120-132 | Creates one new firework per scored object, at its position, with size 20, duration 50 and its particles generated, in order. |
| Game.MoveAll | BeatGame/taigu.py:148-152 | Moves every object of the snapshot once. Returns, in order, those still on screen; their states are `Advance` of the old states. |
| Game.TickAll | BeatGame/taigu.py:155-160 | Counts every firework of the snapshot down once. Returns, in order, those with frames left; their states are `Expire` of the old states. |
| Game.SurvivorHitViews | BeatGame/taigu.py:148-152 | The objects kept after moving have exactly the states `Advance` predicts. |
| Game.SurvivorFwViews | BeatGame/taigu.py:155-160 | The fireworks kept after counting down have exactly the states `Expire` predicts. |

## Left out

- Drawing, the window, fonts and the score text (`draw` methods, `fill`, `blit`, `flip`, the target-line rectangle): rendering through pygame only.
- Audio (loading and looping the music track): no effect on game state.
- The colour of hit objects and the random colour of fireworks: they only affect drawing.
- `Firework.update` (moving each particle by its velocity) and the float particle positions and velocities from `cos`/`sin`: floating point. A particle is represented by its launch angle.
- Entities.Firework.GenerateParticles: records each particle's angle, not its float position and velocity.
- Wall-clock time (`time.time()`) and the float `beat_interval = 60 / BPM`: time is an integer tick count passed in as `now`, and the interval is a positive integer parameter. How many objects a given span of wall-clock time spawns depends on real frame timing and is not modelled; `SpawnCountBound` gives the general bound.
- Polling pygame for events and reading the clock: each frame's events and time are passed in, as a `Frame` value, to `Run`, or as arguments to `RunFrame`.
- `clock.tick(60)` frame pacing, `pygame.quit()` and `sys.exit()`: `Run` stops after the frame with the quit request and returns how many frames it ran.
- Game.GameState.HandleClick: works in two passes, first scoring every object, then creating the fireworks in the same order. The source creates each firework inside the scoring loop. Nothing in the loop reads the firework list, so the outcome is the same.
- Game.GameState.MoveHitObjects and Game.GameState.ExpireFireworks: build the survivor list while walking the snapshot instead of calling `remove` on the live list. `Lists.RemovalIsFilter` proves both give the same list.
