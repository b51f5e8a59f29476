/** The game's rules on plain values: the constants of the rhythm game, a value
    view of a hit object and of a firework, and the per-object and per-list
    rules that the game loop applies each frame (hit test, timing window, click
    resolution, movement and removal, firework expiry, the particle angles). */
module Rules {

  const SCREEN_WIDTH: int := 800
  const SCREEN_HEIGHT: int := 600
  const HIT_OBJECT_SIZE: int := 20
  const HIT_OBJECT_SPEED: int := 3
  const LINE_X: int := 100
  /** Height of the target line; both operands are non-negative, so floor division is `/`. */
  const LINE_Y: int := SCREEN_HEIGHT / 2 - HIT_OBJECT_SIZE / 2
  const WIN_AREA_WIDTH: int := 30
  /** Points awarded per scored hit object. */
  const HIT_SCORE: int := 10
  const FIREWORK_SIZE: int := 20
  /** Frames a firework lives. */
  const FIREWORK_DURATION: int := 50

  function Abs(n: int): (r: nat)
    ensures r == n || r == -n
  {
    if n < 0 then -n else n
  }

  /** The state of one hit object (its colour is left out: it only affects drawing). */
  datatype HitState = HitState(x: int, y: int, size: int, speed: int, counted: bool, scored: bool)
  {
    /** The click at (px, py) is on the circle: squared distance at most size squared. */
    predicate Clicked(px: int, py: int) {
      var dx := px - x;
      var dy := py - y;
      dx * dx + dy * dy <= size * size
    }

    /** The object is within half the window width of the target line. */
    predicate InWindow() {
      Abs(x - LINE_X) <= WIN_AREA_WIDTH / 2
    }

    /** All three conditions under which a click scores this object. */
    predicate Qualifies(px: int, py: int) {
      Clicked(px, py) && InWindow() && !counted
    }

    /** The object after a click at (px, py) has been resolved against it. */
    function Resolve(px: int, py: int): HitState {
      if Qualifies(px, py) then this.(counted := true, scored := true) else this
    }

    /** One frame of movement: left by `speed`. */
    function Moved(): HitState {
      this.(x := x - speed)
    }

    /** The object has not yet left the screen on the left. */
    predicate OnScreen() {
      !(x < -size)
    }

    /** Whether the object has the attributes the spawner gives every hit object
        and keeps the flag implication `scored ==> counted`. */
    predicate WellFormed() {
      y == LINE_Y && size == HIT_OBJECT_SIZE && speed == HIT_OBJECT_SPEED &&
      -size <= x <= SCREEN_WIDTH && (scored ==> counted)
    }
  }

  /** Every object of a live list is well formed. */
  predicate HitsWellFormed(hs: seq<HitState>) {
    forall i :: 0 <= i < |hs| ==> hs[i].WellFormed()
  }

  /** A freshly spawned hit object: at the right edge, on the target line, unflagged. */
  const Spawned: HitState :=
    HitState(SCREEN_WIDTH, LINE_Y, HIT_OBJECT_SIZE, HIT_OBJECT_SPEED, false, false)

  /** The state of one firework: origin, spread, frames left and its particles,
      each represented by the angle (in degrees) it was launched at. */
  datatype FwState = FwState(x: int, y: int, size: int, duration: int, particles: seq<int>)
  {
    /** One frame of a firework's life. */
    function Ticked(): FwState {
      this.(duration := duration - 1)
    }

    predicate Alive() {
      duration > 0
    }

    /** Whether the firework is one a hit launched and that has frames left. */
    predicate WellFormed() {
      size == FIREWORK_SIZE &&
      0 < duration <= FIREWORK_DURATION
    }
  }

  /** Every firework of a live list is well formed. */
  predicate FwsWellFormed(fs: seq<FwState>) {
    forall i :: 0 <= i < |fs| ==> fs[i].WellFormed()
  }

  // ---------------------------------------------------------------------------
  // Hit test and timing window

  /** The hit test is a closed disc: the centre and the rim points on the axes
      hit, and one step beyond the rim misses. */
  lemma ClickedDisc(h: HitState)
    requires h.size >= 0
    ensures h.Clicked(h.x, h.y)
    ensures h.Clicked(h.x + h.size, h.y) && h.Clicked(h.x, h.y - h.size)
    ensures !h.Clicked(h.x + h.size + 1, h.y) && !h.Clicked(h.x, h.y - h.size - 1)
  {
    var s := h.size;
    assert (s + 1) * (s + 1) == s * s + 2 * s + 1;
    assert (-s - 1) * (-s - 1) == s * s + 2 * s + 1;
  }

  /** Every click that hits lies in the square that bounds the disc. */
  lemma ClickedBounded(h: HitState, px: int, py: int)
    requires h.size >= 0 && h.Clicked(px, py)
    ensures Abs(px - h.x) <= h.size && Abs(py - h.y) <= h.size
  {
    var s, dx, dy := h.size, px - h.x, py - h.y;
    SquareAbs(dx);
    SquareAbs(dy);
    if Abs(dx) > s {
      SquareGrows(Abs(dx), s);
    }
    if Abs(dy) > s {
      SquareGrows(Abs(dy), s);
    }
  }

  lemma SquareAbs(n: int)
    ensures n * n == Abs(n) * Abs(n) >= 0
  {
    if n < 0 {
      assert n * n == (-n) * (-n);
    }
  }

  lemma SquareGrows(a: nat, s: nat)
    requires a > s
    ensures a * a > s * s
  {
    assert a * a >= (s + 1) * a >= (s + 1) * (s + 1);
  }

  /** The timing window is the band of x values 15 either side of the target line. */
  lemma InWindowBand(h: HitState)
    ensures h.InWindow() <==> LINE_X - 15 <= h.x <= LINE_X + 15
  {
  }

  // ---------------------------------------------------------------------------
  // Resolving one click against the live list

  /** Every object after one click, in order. */
  function ClickAll(hs: seq<HitState>, px: int, py: int): (r: seq<HitState>)
    ensures |r| == |hs|
  {
    if hs == [] then [] else ClickAll(hs[..|hs| - 1], px, py) + [hs[|hs| - 1].Resolve(px, py)]
  }

  /** The objects a click scores, in list order. */
  function Qualifying(hs: seq<HitState>, px: int, py: int): (r: seq<HitState>)
    ensures |r| <= |hs|
  {
    if hs == [] then []
    else
      var last := hs[|hs| - 1];
      Qualifying(hs[..|hs| - 1], px, py) + (if last.Qualifies(px, py) then [last] else [])
  }

  /** The firework launched for a scored object. */
  function Burst(h: HitState): FwState {
    FwState(h.x, h.y, FIREWORK_SIZE, FIREWORK_DURATION, ParticleAngles(FIREWORK_SIZE))
  }

  /** The fireworks a list of scored objects launches, one each, in order;
      every one of them is well formed. */
  function Bursts(q: seq<HitState>): (r: seq<FwState>)
    ensures |r| == |q| && FwsWellFormed(r)
    ensures forall k :: 0 <= k < |q| ==> r[k] == Burst(q[k]) && r[k].x == q[k].x && r[k].y == q[k].y
  {
    seq(|q|, k requires 0 <= k < |q| => Burst(q[k]))
  }

  /** Each object is resolved on its own: a click changes an object exactly when
      the object qualifies, and then sets both flags and nothing else. */
  lemma {:induction false} ClickAllAt(hs: seq<HitState>, px: int, py: int, i: int)
    requires 0 <= i < |hs|
    ensures ClickAll(hs, px, py)[i] == hs[i].Resolve(px, py)
    ensures ClickAll(hs, px, py)[i] != hs[i] <==> hs[i].Qualifies(px, py)
    ensures ClickAll(hs, px, py)[i] == hs[i].(counted := hs[i].counted || hs[i].Qualifies(px, py),
                                              scored := hs[i].scored || hs[i].Qualifies(px, py))
  {
    if i < |hs| - 1 {
      ClickAllAt(hs[..|hs| - 1], px, py, i);
    }
  }

  /** An object already counted is left exactly as it was by any click. */
  lemma CountedIsFinal(hs: seq<HitState>, px: int, py: int, i: int)
    requires 0 <= i < |hs| && hs[i].counted
    ensures ClickAll(hs, px, py)[i] == hs[i]
  {
    ClickAllAt(hs, px, py, i);
  }

  /** A click keeps every object's position, size and speed, and keeps the list
      well formed (in particular `scored ==> counted`). */
  lemma ClickAllKeeps(hs: seq<HitState>, px: int, py: int)
    ensures forall i :: 0 <= i < |hs| ==>
      ClickAll(hs, px, py)[i].x == hs[i].x && ClickAll(hs, px, py)[i].y == hs[i].y &&
      ClickAll(hs, px, py)[i].size == hs[i].size && ClickAll(hs, px, py)[i].speed == hs[i].speed
    ensures HitsWellFormed(hs) ==> HitsWellFormed(ClickAll(hs, px, py))
  {
    forall i | 0 <= i < |hs| { ClickAllAt(hs, px, py, i); }
  }

  /** The scored objects are exactly the qualifying members of the list. */
  lemma {:induction false} QualifyingMembers(hs: seq<HitState>, px: int, py: int, h: HitState)
    ensures h in Qualifying(hs, px, py) <==> h in hs && h.Qualifies(px, py)
  {
    if hs != [] {
      QualifyingMembers(hs[..|hs| - 1], px, py, h);
      assert hs == hs[..|hs| - 1] + [hs[|hs| - 1]];
    }
  }

  /** After a click nothing qualifies for the same click again. */
  lemma {:induction false} ClickedTwiceScoresNothing(hs: seq<HitState>, px: int, py: int)
    ensures Qualifying(ClickAll(hs, px, py), px, py) == []
    ensures ClickAll(ClickAll(hs, px, py), px, py) == ClickAll(hs, px, py)
  {
    if hs != [] {
      var init := hs[..|hs| - 1];
      ClickedTwiceScoresNothing(init, px, py);
      var c := ClickAll(hs, px, py);
      assert c[..|c| - 1] == ClickAll(init, px, py);
    }
  }

  /** A click at the centre of an uncounted object that sits exactly on the
      target line scores it and sets both flags; the same click again scores nothing. */
  lemma CentreClickScoresOnce(h: HitState)
    requires h.x == LINE_X && h.size >= 0 && !h.counted
    ensures Qualifying([h], h.x, h.y) == [h]
    ensures ClickAll([h], h.x, h.y) == [h.(counted := true, scored := true)]
    ensures Qualifying(ClickAll([h], h.x, h.y), h.x, h.y) == []
  {
    ClickedDisc(h);
    assert [h][..0] == [];
    ClickedTwiceScoresNothing([h], h.x, h.y);
  }

  /** A click on an object outside the timing window scores nothing and leaves
      the object, its `counted` flag included, as it was. */
  lemma LateClickMisses(h: HitState, px: int, py: int)
    requires !h.InWindow()
    ensures Qualifying([h], px, py) == [] && ClickAll([h], px, py) == [h]
  {
    assert [h][..0] == [];
  }

  /** The click loop taken one object further: extending the list by one object
      extends the resolved list and the scored list by that object's share. */
  lemma ClickStep(hs: seq<HitState>, px: int, py: int, i: int)
    requires 0 <= i < |hs|
    ensures ClickAll(hs[..i + 1], px, py) == ClickAll(hs[..i], px, py) + [hs[i].Resolve(px, py)]
    ensures Qualifying(hs[..i + 1], px, py) ==
      Qualifying(hs[..i], px, py) + (if hs[i].Qualifies(px, py) then [hs[i]] else [])
  {
    assert hs[..i + 1][..i] == hs[..i];
  }

  /** Adding whole awards to a score that is a non-negative multiple of the
      award keeps it one. */
  lemma AwardKeepsMultiple(score: int, n: nat)
    requires score >= 0 && score % HIT_SCORE == 0
    ensures score + HIT_SCORE * n >= 0 && (score + HIT_SCORE * n) % HIT_SCORE == 0
  {
    var k := score / HIT_SCORE;
    assert score == HIT_SCORE * k;
    assert score + HIT_SCORE * n == HIT_SCORE * (k + n);
  }

  // ---------------------------------------------------------------------------
  // Per-frame movement and removal of hit objects

  /** The live list after one frame: each object moved, those off screen dropped. */
  function Advance(hs: seq<HitState>): (r: seq<HitState>)
    ensures |r| <= |hs|
  {
    if hs == [] then []
    else
      var m := hs[|hs| - 1].Moved();
      Advance(hs[..|hs| - 1]) + (if m.OnScreen() then [m] else [])
  }

  /** Which objects of the list leave the screen on this frame's move. */
  function Leaving(hs: seq<HitState>): (r: seq<bool>)
    ensures |r| == |hs| && forall j :: 0 <= j < |hs| ==> r[j] == !hs[j].Moved().OnScreen()
  {
    seq(|hs|, j requires 0 <= j < |hs| => !hs[j].Moved().OnScreen())
  }

  /** Moving-and-dropping works object by object: survivors keep their order. */
  lemma {:induction false} AdvanceAppend(a: seq<HitState>, b: seq<HitState>)
    ensures Advance(a + b) == Advance(a) + Advance(b)
  {
    if b == [] {
      assert a + b == a;
    } else {
      var b' := b[..|b| - 1];
      AdvanceAppend(a, b');
      assert (a + b)[..|a + b| - 1] == a + b';
    }
  }

  /** No surviving object is dropped and no dropped object survives. */
  lemma {:induction false} AdvanceMembers(hs: seq<HitState>, m: HitState)
    ensures m in Advance(hs) <==> m.OnScreen() && exists h :: h in hs && h.Moved() == m
  {
    if hs != [] {
      var init := hs[..|hs| - 1];
      AdvanceMembers(init, m);
      assert hs == init + [hs[|hs| - 1]];
      if m.OnScreen() && m !in Advance(init) && exists h :: h in hs && h.Moved() == m {
        var h :| h in hs && h.Moved() == m;
        assert h !in init;
        assert h == hs[|hs| - 1];
      }
    }
  }

  /** A frame keeps the list well formed. */
  lemma {:induction false} AdvanceKeepsWellFormed(hs: seq<HitState>)
    requires HitsWellFormed(hs)
    ensures HitsWellFormed(Advance(hs))
  {
    if hs != [] {
      AdvanceKeepsWellFormed(hs[..|hs| - 1]);
    }
  }

  /** An object after n frames of movement. */
  function MoveN(h: HitState, n: nat): HitState {
    if n == 0 then h else MoveN(h, n - 1).Moved()
  }

  /** After n updates an object has moved exactly n times its speed, and nothing else changed. */
  lemma {:induction false} MoveNClosedForm(h: HitState, n: nat)
    ensures MoveN(h, n) == h.(x := h.x - n * h.speed)
  {
    if n > 0 {
      MoveNClosedForm(h, n - 1);
      assert (n - 1) * h.speed + h.speed == n * h.speed;
    }
  }

  /** The live list after n frames. */
  function AdvanceN(hs: seq<HitState>, n: nat): seq<HitState> {
    if n == 0 then hs else Advance(AdvanceN(hs, n - 1))
  }

  /** A lone object moving left survives frame n exactly when it is still on
      screen after n moves: it is removed in the first frame that takes it past
      `-size`, and not before. */
  lemma {:induction false} HitObjectLifetime(h: HitState, n: nat)
    requires h.speed >= 0 && n >= 1
    ensures AdvanceN([h], n) ==
      if h.x - n * h.speed >= -h.size then [MoveN(h, n)] else []
  {
    MoveNClosedForm(h, n);
    if n > 1 {
      HitObjectLifetime(h, n - 1);
      MoveNClosedForm(h, n - 1);
      assert (n - 1) * h.speed + h.speed == n * h.speed;
      if h.x - (n - 1) * h.speed >= -h.size {
        assert AdvanceN([h], n) == Advance([MoveN(h, n - 1)]);
        assert [MoveN(h, n - 1)][..0] == [];
      }
    } else {
      assert [h][..0] == [];
    }
  }

  // ---------------------------------------------------------------------------
  // Per-frame expiry of fireworks

  /** The live fireworks after one frame: each one a frame older, expired ones dropped. */
  function Expire(fs: seq<FwState>): (r: seq<FwState>)
    ensures |r| <= |fs|
  {
    if fs == [] then []
    else
      var t := fs[|fs| - 1].Ticked();
      Expire(fs[..|fs| - 1]) + (if t.Alive() then [t] else [])
  }

  /** Which fireworks of the list run out of frames on this frame's tick. */
  function Expiring(fs: seq<FwState>): (r: seq<bool>)
    ensures |r| == |fs| && forall j :: 0 <= j < |fs| ==> r[j] == !fs[j].Ticked().Alive()
  {
    seq(|fs|, j requires 0 <= j < |fs| => !fs[j].Ticked().Alive())
  }

  /** Exactly the fireworks with frames left survive, one frame older, in order. */
  lemma {:induction false} ExpireMembers(fs: seq<FwState>, t: FwState)
    ensures t in Expire(fs) <==> t.duration > 0 && t.(duration := t.duration + 1) in fs
  {
    if fs != [] {
      var init := fs[..|fs| - 1];
      ExpireMembers(init, t);
      assert fs == init + [fs[|fs| - 1]];
    }
  }

  /** A frame keeps every live firework well formed. */
  lemma {:induction false} ExpireKeepsWellFormed(fs: seq<FwState>)
    requires FwsWellFormed(fs)
    ensures FwsWellFormed(Expire(fs))
  {
    if fs != [] {
      ExpireKeepsWellFormed(fs[..|fs| - 1]);
    }
  }

  function ExpireN(fs: seq<FwState>, n: nat): seq<FwState> {
    if n == 0 then fs else Expire(ExpireN(fs, n - 1))
  }

  /** A firework created with d frames survives d - 1 frames and is removed on frame d. */
  lemma {:induction false} FireworkLifetime(f: FwState, n: nat)
    requires f.duration >= 1 && n >= 1
    ensures ExpireN([f], n) ==
      if n < f.duration then [f.(duration := f.duration - n)] else []
  {
    if n > 1 {
      FireworkLifetime(f, n - 1);
      if n - 1 < f.duration {
        assert [f.(duration := f.duration - (n - 1))][..0] == [];
      }
    } else {
      assert [f][..0] == [];
    }
  }

  // ---------------------------------------------------------------------------
  // Particle angles

  /** The values of `range(start, stop, step)` for a positive step. */
  function Range(start: int, stop: int, step: int): seq<int>
    requires step > 0
    decreases stop - start
  {
    if start >= stop then [] else [start] + Range(start + step, stop, step)
  }

  /** `range(start, stop, step)` counts up from start in steps and stops at the
      first value not below stop. */
  lemma {:induction false} RangeShape(start: int, stop: int, step: int)
    requires step > 0
    ensures forall k :: 0 <= k < |Range(start, stop, step)| ==> Range(start, stop, step)[k] == start + k * step
    ensures start < stop ==>
      start + (|Range(start, stop, step)| - 1) * step < stop <= start + |Range(start, stop, step)| * step
    ensures start >= stop ==> Range(start, stop, step) == []
    decreases stop - start
  {
    if start < stop {
      var rest := Range(start + step, stop, step);
      RangeShape(start + step, stop, step);
      forall k | 1 <= k < |rest| + 1
        ensures Range(start, stop, step)[k] == start + k * step
      {
        assert Range(start, stop, step)[k] == rest[k - 1];
        assert start + step + (k - 1) * step == start + k * step;
      }
      assert start + step + (|rest| - 1) * step == start + |rest| * step;
      assert start + step + |rest| * step == start + (|rest| + 1) * step;
    }
  }

  /** The launch angles of a firework: `range(0, 360, 360 // size)`. */
  function ParticleAngles(size: int): seq<int>
    requires 0 < size <= 360
  {
    Range(0, 360, 360 / size)
  }

  /** A firework of size 20 has 20 particles, 18 degrees apart. */
  lemma ParticleCountTwenty()
    ensures |ParticleAngles(FIREWORK_SIZE)| == 20
    ensures forall k :: 0 <= k < 20 ==> ParticleAngles(FIREWORK_SIZE)[k] == 18 * k
  {
    RangeShape(0, 360, 18);
    var n := |Range(0, 360, 18)|;
    assert (n - 1) * 18 < 360 <= n * 18;
  }

  /** For every size the source accepts, the particle count is 360 divided by
      the step `360 // size`, rounded up. */
  lemma ParticleCount(size: int)
    requires 0 < size <= 360
    ensures |ParticleAngles(size)| == (360 + 360 / size - 1) / (360 / size)
  {
    var step := 360 / size;
    RangeShape(0, 360, step);
    var n := |Range(0, 360, step)|;
    assert (n - 1) * step < 360 <= n * step;
    assert n * step <= 360 + step - 1 < (n + 1) * step;
    DivideBetween(360 + step - 1, step, n);
  }

  /** Integer division is pinned down by the multiples of the divisor around the dividend. */
  lemma DivideBetween(a: int, b: int, q: int)
    requires b > 0 && q * b <= a < (q + 1) * b
    ensures a / b == q
  {
    var d := a / b;
    if d < q {
      MultipleGrows(d + 1, q, b);
    } else if d > q {
      MultipleGrows(q + 1, d, b);
    }
  }

  lemma MultipleGrows(x: int, y: int, b: nat)
    requires x <= y
    ensures x * b <= y * b
  {
    assert y * b == x * b + (y - x) * b;
  }

  /** The count is `len(range(0, 360, 360 // size))`, which is not always `size`:
      a firework of size 7 steps by 51 degrees and gets 8 particles. */
  lemma ParticleCountSeven()
    ensures |ParticleAngles(7)| == 8
  {
    RangeShape(0, 360, 51);
    var n := |Range(0, 360, 51)|;
    assert (n - 1) * 51 < 360 <= n * 51;
  }

  // ---------------------------------------------------------------------------
  // Beat clock

  /** A new hit object is due when at least one interval has passed since the last. */
  predicate SpawnDue(now: int, lastBeat: int, interval: int) {
    now - lastBeat >= interval
  }

  /** The beat clock over a run of frames at times `nows`: how many objects it
      spawns and when the last beat was afterwards. */
  function SpawnRun(lastBeat: int, interval: int, nows: seq<int>): (int, int)
  {
    if nows == [] then (0, lastBeat)
    else
      var (k, last) := SpawnRun(lastBeat, interval, nows[..|nows| - 1]);
      var now := nows[|nows| - 1];
      if SpawnDue(now, last, interval) then (k + 1, now) else (k, last)
  }

  /** Each spawn moves the last beat forward by at least one interval, and the
      last beat is either the starting one or one of the frame times. */
  lemma {:induction false} SpawnRunProgress(lastBeat: int, interval: int, nows: seq<int>)
    requires interval > 0
    ensures SpawnRun(lastBeat, interval, nows).0 >= 0
    ensures SpawnRun(lastBeat, interval, nows).1 >=
      lastBeat + SpawnRun(lastBeat, interval, nows).0 * interval
    ensures SpawnRun(lastBeat, interval, nows).1 == lastBeat || SpawnRun(lastBeat, interval, nows).1 in nows
  {
    if nows != [] {
      var init := nows[..|nows| - 1];
      SpawnRunProgress(lastBeat, interval, init);
      var (k, last) := SpawnRun(lastBeat, interval, init);
      assert nows == init + [nows[|nows| - 1]];
      assert (k + 1) * interval == k * interval + interval;
    }
  }

  /** No catch-up: however the frames fall, within a span of time T after the
      last beat at most T / interval objects appear. */
  lemma SpawnCountBound(lastBeat: int, interval: int, nows: seq<int>, span: int)
    requires interval > 0
    requires forall i :: 0 <= i < |nows| ==> nows[i] <= lastBeat + span
    ensures SpawnRun(lastBeat, interval, nows).0 * interval <= (if span < 0 then 0 else span)
  {
    SpawnRunProgress(lastBeat, interval, nows);
  }

  // ---------------------------------------------------------------------------
  // The events of one frame

  /** An input event: the quit request, a mouse-button press at a point, or
      anything else (which the game ignores). */
  datatype Event = Quit | MouseDown(px: int, py: int) | OtherEvent

  /** The objects one event scores: those a mouse press qualifies, in order;
      no object for any other event. */
  function EventScored(hs: seq<HitState>, e: Event): (r: seq<HitState>)
    ensures |r| <= |hs|
  {
    match e
    case MouseDown(px, py) => Qualifying(hs, px, py)
    case _ => []
  }

  /** The hit objects after one event: a mouse press is resolved against every
      object, any other event changes none. */
  function EventClick(hs: seq<HitState>, e: Event): (r: seq<HitState>)
    ensures |r| == |hs|
  {
    match e
    case MouseDown(px, py) => ClickAll(hs, px, py)
    case _ => hs
  }

  /** The hit objects after a frame's events have been handled in order. */
  function ClickEvents(hs: seq<HitState>, evs: seq<Event>): (r: seq<HitState>)
    ensures |r| == |hs|
  {
    if evs == [] then hs else EventClick(ClickEvents(hs, evs[..|evs| - 1]), evs[|evs| - 1])
  }

  /** How many objects a frame's events score in all. */
  function EventHits(hs: seq<HitState>, evs: seq<Event>): nat
  {
    if evs == [] then 0
    else
      var init := evs[..|evs| - 1];
      EventHits(hs, init) + |EventScored(ClickEvents(hs, init), evs[|evs| - 1])|
  }

  /** The fireworks a frame's events launch, in order. */
  function EventBursts(hs: seq<HitState>, evs: seq<Event>): seq<FwState>
  {
    if evs == [] then []
    else
      var init := evs[..|evs| - 1];
      EventBursts(hs, init) + Bursts(EventScored(ClickEvents(hs, init), evs[|evs| - 1]))
  }

  /** Whether a frame's events include a quit request. */
  function QuitRequested(evs: seq<Event>): bool
  {
    evs != [] && (QuitRequested(evs[..|evs| - 1]) || evs[|evs| - 1] == Quit)
  }

  /** A quit request is one of the events exactly when some event is `Quit`. */
  lemma {:induction false} QuitRequestedIn(evs: seq<Event>)
    ensures QuitRequested(evs) <==> Quit in evs
  {
    if evs != [] {
      QuitRequestedIn(evs[..|evs| - 1]);
      assert evs == evs[..|evs| - 1] + [evs[|evs| - 1]];
    }
  }

  /** The frame's events taken one further. */
  lemma EventStep(hs: seq<HitState>, evs: seq<Event>, i: int)
    requires 0 <= i < |evs|
    ensures QuitRequested(evs[..i + 1]) == (QuitRequested(evs[..i]) || evs[i] == Quit)
    ensures ClickEvents(hs, evs[..i + 1]) == EventClick(ClickEvents(hs, evs[..i]), evs[i])
    ensures EventHits(hs, evs[..i + 1]) ==
      EventHits(hs, evs[..i]) + |EventScored(ClickEvents(hs, evs[..i]), evs[i])|
    ensures EventBursts(hs, evs[..i + 1]) ==
      EventBursts(hs, evs[..i]) + Bursts(EventScored(ClickEvents(hs, evs[..i]), evs[i]))
  {
    assert evs[..i + 1] == evs[..i] + [evs[i]];
    assert evs[..i + 1][..i] == evs[..i];
  }

  /** Two identical clicks in one frame score no more than one. */
  lemma DoubleClickScoresOnce(hs: seq<HitState>, px: int, py: int)
    ensures EventHits(hs, [MouseDown(px, py), MouseDown(px, py)]) == |Qualifying(hs, px, py)|
    ensures ClickEvents(hs, [MouseDown(px, py), MouseDown(px, py)]) == ClickAll(hs, px, py)
  {
    var evs := [MouseDown(px, py), MouseDown(px, py)];
    var one := evs[..1];
    assert one[..0] == [];
    assert ClickEvents(hs, one) == ClickAll(hs, px, py);
    assert EventHits(hs, one) == |Qualifying(hs, px, py)|;
    assert evs[..|evs| - 1] == one;
    ClickedTwiceScoresNothing(hs, px, py);
  }

  // ---------------------------------------------------------------------------
  // Whole frames

  /** What one pass of the game loop is given: the frame's events and the time. */
  datatype Frame = Frame(events: seq<Event>, now: int)

  /** The whole game state as a value: live hit objects, live fireworks, score
      and the time of the last beat. */
  datatype World = World(hits: seq<HitState>, fws: seq<FwState>, score: int, lastBeat: int)
  {
    /** The game's invariant on values: every live object and firework well
        formed, the score a non-negative multiple of the award. */
    predicate WellFormed() {
      HitsWellFormed(hits) && FwsWellFormed(fws) && score >= 0 && score % HIT_SCORE == 0
    }
  }

  /** One pass of the game loop: the events in order, then the beat clock, then
      movement and expiry. */
  function NextWorld(w: World, interval: int, f: Frame): World {
    var spawned := SpawnDue(f.now, w.lastBeat, interval);
    World(Advance(ClickEvents(w.hits, f.events) + (if spawned then [Spawned] else [])),
          Expire(w.fws + EventBursts(w.hits, f.events)),
          w.score + HIT_SCORE * EventHits(w.hits, f.events),
          if spawned then f.now else w.lastBeat)
  }

  /** The game after the given frames, in order. */
  function PlayFrames(w: World, interval: int, fs: seq<Frame>): World {
    if fs == [] then w else NextWorld(PlayFrames(w, interval, fs[..|fs| - 1]), interval, fs[|fs| - 1])
  }

  /** A state whose parts are those of the next frame is the next frame. */
  lemma NextWorldParts(w: World, interval: int, f: Frame, v: World)
    requires v.lastBeat == (if SpawnDue(f.now, w.lastBeat, interval) then f.now else w.lastBeat)
    requires v.score == w.score + HIT_SCORE * EventHits(w.hits, f.events)
    requires v.hits == Advance(ClickEvents(w.hits, f.events) + (if SpawnDue(f.now, w.lastBeat, interval) then [Spawned] else []))
    requires v.fws == Expire(w.fws + EventBursts(w.hits, f.events))
    ensures v == NextWorld(w, interval, f)
  {
  }

  /** None of the first n frames carries a quit request. */
  predicate QuitFree(fs: seq<Frame>, n: int) {
    forall k :: 0 <= k < n && k < |fs| ==> Quit !in fs[k].events
  }

  lemma QuitFreeStep(fs: seq<Frame>, n: int)
    requires QuitFree(fs, n) && 0 <= n < |fs| && Quit !in fs[n].events
    ensures QuitFree(fs, n + 1)
  {
  }

  /** The frames taken one further. */
  lemma PlayStep(w: World, interval: int, fs: seq<Frame>, i: int)
    requires 0 <= i < |fs|
    ensures PlayFrames(w, interval, fs[..i + 1]) == NextWorld(PlayFrames(w, interval, fs[..i]), interval, fs[i])
  {
    assert fs[..i + 1][..i] == fs[..i];
  }

  /** Clicks keep a well-formed list well formed, whatever the events. */
  lemma {:induction false} ClickEventsKeepWellFormed(hs: seq<HitState>, evs: seq<Event>)
    requires HitsWellFormed(hs)
    ensures HitsWellFormed(ClickEvents(hs, evs))
  {
    if evs != [] {
      var init := evs[..|evs| - 1];
      ClickEventsKeepWellFormed(hs, init);
      match evs[|evs| - 1]
      case MouseDown(px, py) => ClickAllKeeps(ClickEvents(hs, init), px, py);
      case _ =>
    }
  }

  /** Every firework a frame's events launch is well formed. */
  lemma {:induction false} EventBurstsWellFormed(hs: seq<HitState>, evs: seq<Event>)
    ensures FwsWellFormed(EventBursts(hs, evs))
  {
    if evs != [] {
      EventBurstsWellFormed(hs, evs[..|evs| - 1]);
    }
  }

  /** A frame keeps the game's invariant. */
  lemma NextWorldKeepsWellFormed(w: World, interval: int, f: Frame)
    requires w.WellFormed()
    ensures NextWorld(w, interval, f).WellFormed()
  {
    NextHitsWellFormed(w, interval, f);
    NextFwsWellFormed(w, interval, f);
    AwardKeepsMultiple(w.score, EventHits(w.hits, f.events));
  }

  lemma NextHitsWellFormed(w: World, interval: int, f: Frame)
    requires HitsWellFormed(w.hits)
    ensures HitsWellFormed(NextWorld(w, interval, f).hits)
  {
    var clicked := ClickEvents(w.hits, f.events);
    var born: seq<HitState> := if SpawnDue(f.now, w.lastBeat, interval) then [Spawned] else [];
    ClickEventsKeepWellFormed(w.hits, f.events);
    HitsAppendWellFormed(clicked, born);
    AdvanceKeepsWellFormed(clicked + born);
  }

  lemma NextFwsWellFormed(w: World, interval: int, f: Frame)
    requires FwsWellFormed(w.fws)
    ensures FwsWellFormed(NextWorld(w, interval, f).fws)
  {
    var bursts := EventBursts(w.hits, f.events);
    EventBurstsWellFormed(w.hits, f.events);
    FwsAppendWellFormed(w.fws, bursts);
    ExpireKeepsWellFormed(w.fws + bursts);
  }

  lemma HitsAppendWellFormed(a: seq<HitState>, b: seq<HitState>)
    requires HitsWellFormed(a) && HitsWellFormed(b)
    ensures HitsWellFormed(a + b)
  {
  }

  lemma FwsAppendWellFormed(a: seq<FwState>, b: seq<FwState>)
    requires FwsWellFormed(a) && FwsWellFormed(b)
    ensures FwsWellFormed(a + b)
  {
  }

  /** Any number of frames keeps the game's invariant, and the score never goes down. */
  lemma {:induction false} PlayKeepsWellFormed(w: World, interval: int, fs: seq<Frame>)
    requires w.WellFormed()
    ensures PlayFrames(w, interval, fs).WellFormed()
    ensures PlayFrames(w, interval, fs).score >= w.score
  {
    if fs != [] {
      var before := PlayFrames(w, interval, fs[..|fs| - 1]);
      PlayKeepsWellFormed(w, interval, fs[..|fs| - 1]);
      NextWorldKeepsWellFormed(before, interval, fs[|fs| - 1]);
    }
  }

  /** The times of a run of frames, in order. */
  function Nows(fs: seq<Frame>): seq<int>
  {
    seq(|fs|, k requires 0 <= k < |fs| => fs[k].now)
  }

  /** The game's beat clock is `SpawnRun` over the frames' times: a frame spawns
      exactly when `SpawnRun` does at that time. */
  lemma {:induction false} BeatClockIsSpawnRun(w: World, interval: int, fs: seq<Frame>)
    ensures PlayFrames(w, interval, fs).lastBeat == SpawnRun(w.lastBeat, interval, Nows(fs)).1
  {
    if fs != [] {
      BeatClockIsSpawnRun(w, interval, fs[..|fs| - 1]);
      assert Nows(fs)[..|fs| - 1] == Nows(fs[..|fs| - 1]);
    }
  }

  /** Over any run of frames of the game, the last beat moves forward by at least
      one interval per spawn and is the start time or the time of one of the frames. */
  lemma PlayBeatProgress(w: World, interval: int, fs: seq<Frame>)
    requires interval > 0
    ensures var last := PlayFrames(w, interval, fs).lastBeat;
      last >= w.lastBeat + SpawnRun(w.lastBeat, interval, Nows(fs)).0 * interval &&
      (last == w.lastBeat || exists k :: 0 <= k < |fs| && fs[k].now == last)
  {
    BeatClockIsSpawnRun(w, interval, fs);
    SpawnRunProgress(w.lastBeat, interval, Nows(fs));
  }
}
