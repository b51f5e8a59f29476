/** The state the game loop owns: the live hit objects and fireworks, the score
    and the time of the last beat, with the three things a frame does to them
    (resolve clicks, spawn on the beat, move and expire) and the frame itself. */
module Game {
  import opened Rules
  import opened Entities
  import opened Lists

  /** The states of a list of hit objects, in list order. */
  function HitViews(objs: seq<HitObject>): (r: seq<HitState>)
    reads objs
    ensures |r| == |objs| && forall i :: 0 <= i < |objs| ==> r[i] == objs[i].View()
  {
    seq(|objs|, i requires 0 <= i < |objs| reads objs => objs[i].View())
  }

  /** A list of hit objects whose states are, one by one, the given values. */
  lemma HitViewsAre(objs: seq<HitObject>, vs: seq<HitState>)
    requires |objs| == |vs| && forall k :: 0 <= k < |objs| ==> objs[k].View() == vs[k]
    ensures HitViews(objs) == vs
  {
  }

  /** The states of a list of fireworks, in list order. */
  function FwViews(fws: seq<Firework>): (r: seq<FwState>)
    reads fws
    ensures |r| == |fws| && forall i :: 0 <= i < |fws| ==> r[i] == fws[i].View()
  {
    seq(|fws|, i requires 0 <= i < |fws| reads fws => fws[i].View())
  }

  /** A list of fireworks whose states are, one by one, the given values. */
  lemma FwViewsAre(fws: seq<Firework>, vs: seq<FwState>)
    requires |fws| == |vs| && forall k :: 0 <= k < |fws| ==> fws[k].View() == vs[k]
    ensures FwViews(fws) == vs
  {
  }

  class GameState {
    var hitObjects: seq<HitObject>
    var fireworks: seq<Firework>
    var score: int
    var lastBeat: int
    /** Time between beats, in the same ticks as the clock. */
    const interval: int
    /** The game and every hit object and firework it has ever held. */
    ghost var Repr: set<object>

    /** The game's invariant: every live hit object was spawned by the beat clock
        and keeps `scored ==> counted`, every live firework has frames left, the
        score is a non-negative multiple of the award, and no object is listed twice. */
    ghost predicate Valid()
      reads this`score, this`hitObjects, this`fireworks, hitObjects, fireworks
    {
      interval > 0 && score >= 0 && score % HIT_SCORE == 0 && HitsValid() && FwsValid()
    }

    /** The live hit objects are distinct and each is well formed. */
    ghost predicate HitsValid()
      reads this`hitObjects, hitObjects
    {
      Distinct(hitObjects) && HitsWellFormed(Hits())
    }

    /** The live fireworks are distinct and each is well formed. */
    ghost predicate FwsValid()
      reads this`fireworks, fireworks
    {
      Distinct(fireworks) && FwsWellFormed(Fws())
    }

    function Hits(): seq<HitState>
      reads this`hitObjects, hitObjects
    {
      HitViews(hitObjects)
    }

    function Fws(): seq<FwState>
      reads this`fireworks, fireworks
    {
      FwViews(fireworks)
    }

    /** The game owns its live hit objects and fireworks: they are all in `Repr`. */
    ghost predicate Owns()
      reads this`Repr, this`hitObjects, this`fireworks
    {
      this in Repr && (forall o :: o in hitObjects ==> o in Repr) && (forall o :: o in fireworks ==> o in Repr)
    }

    /** The whole game state as a value. */
    ghost function State(): World
      reads this`hitObjects, this`fireworks, this`score, this`lastBeat, hitObjects, fireworks
    {
      World(Hits(), Fws(), score, lastBeat)
    }

    /** The game's invariant on the objects implies the invariant on the value. */
    lemma StateWellFormed()
      requires Valid()
      ensures State().WellFormed()
    {
    }

    /** A new game: nothing on screen, no score, the beat clock started at `start`. */
    constructor (start: int, beatInterval: int)
      requires beatInterval > 0
      ensures Valid() && Owns() && fresh(Repr)
      ensures hitObjects == [] && fireworks == [] && score == 0
      ensures lastBeat == start && interval == beatInterval
    {
      hitObjects, fireworks, score := [], [], 0;
      lastBeat, interval := start, beatInterval;
      Repr := {this};
    }

    /** The game loop: runs the frames in order for as long as the game is
        running. The frame in which a quit request arrives is run to its end
        and is the last one. */
    method Run(frames: seq<Frame>) returns (played: nat)
      requires Valid() && Owns()
      modifies Repr
      ensures Valid() && Owns() && fresh(Repr - old(Repr))
      ensures played <= |frames| && QuitFree(frames, played - 1)
      ensures played == |frames| || (played > 0 && Quit in frames[played - 1].events)
      ensures State() == PlayFrames(old(State()), interval, frames[..played])
    {
      ghost var w0, repr0 := State(), Repr;
      played := 0;
      while played < |frames|
        invariant Valid() && Owns() && fresh(Repr - repr0)
        invariant played <= |frames| && QuitFree(frames, played)
        invariant State() == PlayFrames(w0, interval, frames[..played])
      {
        var running := PlayNext(frames, played, w0);
        played := played + 1;
        if !running {
          return;
        }
      }
    }

    /** One turn of the loop in `Run`: plays frame `played`, which follows a
        run of frames without a quit request from `w0`. */
    method PlayNext(frames: seq<Frame>, played: nat, ghost w0: World) returns (running: bool)
      requires Valid() && Owns() && played < |frames| && QuitFree(frames, played)
      requires State() == PlayFrames(w0, interval, frames[..played])
      modifies Repr
      ensures Valid() && Owns() && fresh(Repr - old(Repr))
      ensures running ==> QuitFree(frames, played + 1)
      ensures !running ==> Quit in frames[played].events
      ensures State() == PlayFrames(w0, interval, frames[..played + 1])
    {
      PlayStep(w0, interval, frames, played);
      var spawned;
      running, spawned := RunFrame(frames[played].events, frames[played].now);
      if running {
        QuitFreeStep(frames, played);
      }
    }

    /** A mouse press at (px, py): every live object that is under the pointer,
        inside the timing window and not yet counted is scored, in list order,
        each adding the award to the score, getting both flags set and
        launching one firework at its position. Nothing else changes. */
    method HandleClick(px: int, py: int)
      requires Valid()
      modifies this`score, this`fireworks, hitObjects`counted, hitObjects`scored
      ensures Valid()
      ensures hitObjects == old(hitObjects)
      ensures Hits() == ClickAll(old(Hits()), px, py)
      ensures score == old(score) + HIT_SCORE * |Qualifying(old(Hits()), px, py)|
      ensures Fws() == old(Fws()) + Bursts(Qualifying(old(Hits()), px, py))
      ensures |fireworks| >= |old(fireworks)| && fireworks[..|old(fireworks)|] == old(fireworks)
      ensures forall j :: |old(fireworks)| <= j < |fireworks| ==> fresh(fireworks[j])
    {
      var scoredObjs := ScoreClick(px, py);
      AddFireworks(scoredObjs);
    }

    /** One pass of the game loop at time `now`: the frame's events, then the
        beat clock, then movement and expiry. The game goes on unless a quit
        request came in, and the game invariant holds from frame to frame. */
    method RunFrame(evs: seq<Event>, now: int) returns (running: bool, spawned: bool)
      requires Valid() && Owns()
      modifies Repr
      ensures Valid() && Owns() && fresh(Repr - old(Repr))
      ensures running <==> Quit !in evs
      ensures spawned == SpawnDue(now, old(lastBeat), interval)
      ensures State() == NextWorld(old(State()), interval, Frame(evs, now))
    {
      ghost var w := State();
      running, spawned := FrameStep(evs, now);
      NextWorldParts(w, interval, Frame(evs, now), State());
      Adopt();
    }

    /** The work of one frame on the live objects: the events, the beat clock,
        movement and expiry. Every object live afterwards was live before or is new. */
    method FrameStep(evs: seq<Event>, now: int) returns (running: bool, spawned: bool)
      requires Valid()
      modifies this`hitObjects, this`fireworks, this`score, this`lastBeat
      modifies hitObjects`x, hitObjects`counted, hitObjects`scored, fireworks`duration
      ensures Valid()
      ensures running <==> Quit !in evs
      ensures spawned == SpawnDue(now, old(lastBeat), interval)
      ensures lastBeat == (if spawned then now else old(lastBeat))
      ensures score == old(score) + HIT_SCORE * EventHits(old(Hits()), evs)
      ensures Hits() == Advance(ClickEvents(old(Hits()), evs) + (if spawned then [Spawned] else []))
      ensures Fws() == Expire(old(Fws()) + EventBursts(old(Hits()), evs))
      ensures forall o :: o in hitObjects ==> o in old(hitObjects) || fresh(o)
      ensures forall o :: o in fireworks ==> o in old(fireworks) || fresh(o)
    {
      ghost var added;
      running, added := HandleEvents(evs);
      spawned := Tick(now);
    }

    /** Adds the live hit objects and fireworks to `Repr`. */
    ghost method Adopt()
      requires this in Repr
      modifies this`Repr
      ensures Owns()
      ensures forall o :: o in Repr ==> o in old(Repr) || o in hitObjects || o in fireworks
    {
      Repr := Repr + (set o: HitObject | o in hitObjects) + (set o: Firework | o in fireworks);
    }

    /** The rest of a frame after its events: the beat clock, then movement and expiry. */
    method Tick(now: int) returns (spawned: bool)
      requires Valid()
      modifies this`hitObjects, this`fireworks, this`lastBeat, hitObjects`x, fireworks`duration
      ensures Valid()
      ensures spawned == SpawnDue(now, old(lastBeat), interval)
      ensures lastBeat == (if spawned then now else old(lastBeat))
      ensures Hits() == Advance(old(Hits()) + (if spawned then [Spawned] else []))
      ensures Fws() == Expire(old(Fws()))
      ensures score == old(score)
      ensures forall o :: o in hitObjects ==> o in old(hitObjects) || fresh(o)
      ensures forall o :: o in fireworks ==> o in old(fireworks)
    {
      spawned := MaybeSpawn(now);
      Step();
    }

    /** The event loop of one frame: a quit request stops the game (the events
        after it are still handled), a mouse press is a click; the hit objects,
        score and fireworks end up as the frame's events, taken in order, make them. */
    method HandleEvents(evs: seq<Event>) returns (running: bool, ghost added: seq<Firework>)
      requires Valid()
      modifies this`score, this`fireworks, hitObjects`counted, hitObjects`scored
      ensures Valid()
      ensures running <==> Quit !in evs
      ensures hitObjects == old(hitObjects)
      ensures Hits() == ClickEvents(old(Hits()), evs)
      ensures score == old(score) + HIT_SCORE * EventHits(old(Hits()), evs)
      ensures Fws() == old(Fws()) + EventBursts(old(Hits()), evs)
      ensures fireworks == old(fireworks) + added && fresh(added)
    {
      ghost var hits0, fwStates0 := Hits(), Fws();
      running, added := true, [];
      for i := 0 to |evs|
        invariant Valid()
        invariant running == !QuitRequested(evs[..i])
        invariant hitObjects == old(hitObjects)
        invariant Hits() == ClickEvents(hits0, evs[..i])
        invariant score == old(score) + HIT_SCORE * EventHits(hits0, evs[..i])
        invariant Fws() == fwStates0 + EventBursts(hits0, evs[..i])
        invariant fireworks == old(fireworks) + added && fresh(added)
      {
        EventStep(hits0, evs, i);
        AppendAssoc(fwStates0, EventBursts(hits0, evs[..i]), Bursts(EventScored(Hits(), evs[i])));
        ghost var more;
        var quit;
        quit, more := HandleEvent(evs[i]);
        AppendAssoc(old(fireworks), added, more);
        running, added := running && !quit, added + more;
      }
      assert evs[..|evs|] == evs;
      QuitRequestedIn(evs);
    }

    /** One event: a quit request is reported, a mouse press is a click, anything
        else is ignored. */
    method HandleEvent(e: Event) returns (quit: bool, ghost added: seq<Firework>)
      requires Valid()
      modifies this`score, this`fireworks, hitObjects`counted, hitObjects`scored
      ensures Valid()
      ensures quit <==> e == Quit
      ensures hitObjects == old(hitObjects)
      ensures Hits() == EventClick(old(Hits()), e)
      ensures score == old(score) + HIT_SCORE * |EventScored(old(Hits()), e)|
      ensures Fws() == old(Fws()) + Bursts(EventScored(old(Hits()), e))
      ensures fireworks == old(fireworks) + added && fresh(added)
    {
      quit, added := false, [];
      match e
      case Quit =>
        quit := true;
      case MouseDown(px, py) =>
        ghost var before := fireworks;
        HandleClick(px, py);
        added := fireworks[|before|..];
      case OtherEvent =>
    }

    /** The scoring half of a click: resolves every live hit object and returns,
        in order, the states of those it scored. */
    method ScoreClick(px: int, py: int) returns (scoredObjs: seq<HitState>)
      requires HitsValid() && score >= 0 && score % HIT_SCORE == 0
      modifies this`score, hitObjects`counted, hitObjects`scored
      ensures HitsValid() && score >= 0 && score % HIT_SCORE == 0
      ensures hitObjects == old(hitObjects)
      ensures Hits() == ClickAll(old(Hits()), px, py)
      ensures scoredObjs == Qualifying(old(Hits()), px, py)
      ensures score == old(score) + HIT_SCORE * |scoredObjs|
      ensures Fws() == old(Fws()) && (old(FwsValid()) ==> FwsValid())
    {
      ghost var fwStates := Fws();
      ClickAllKeeps(Hits(), px, py);
      ghost var score0 := score;
      score, scoredObjs := ClickEach(hitObjects, px, py, score);
      AwardKeepsMultiple(score0, |scoredObjs|);
      FwViewsAre(fireworks, fwStates);
    }

    /** The firework half of a click: one new firework per scored object,
        appended in order after the live ones. */
    method AddFireworks(scoredObjs: seq<HitState>)
      requires FwsValid()
      modifies this`fireworks
      ensures FwsValid()
      ensures Fws() == old(Fws()) + Bursts(scoredObjs)
      ensures |fireworks| >= |old(fireworks)| && fireworks[..|old(fireworks)|] == old(fireworks)
      ensures forall j :: |old(fireworks)| <= j < |fireworks| ==> fresh(fireworks[j])
      ensures Hits() == old(Hits()) && (old(HitsValid()) ==> HitsValid())
    {
      ghost var fwStates := Fws();
      var launched := Launch(scoredObjs);
      DistinctConcat(fireworks, launched);
      FwViewsAre(fireworks + launched, fwStates + Bursts(scoredObjs));
      fireworks := fireworks + launched;
    }

    /** The beat clock, checked once a frame: if an interval has passed since the
        last beat, one new hit object appears at the right edge on the target
        line and the beat time becomes `now`; otherwise nothing changes. */
    method MaybeSpawn(now: int) returns (spawned: bool)
      requires Valid()
      modifies this`hitObjects, this`lastBeat
      ensures Valid()
      ensures spawned == SpawnDue(now, old(lastBeat), interval)
      ensures Hits() == old(Hits()) + (if spawned then [Spawned] else [])
      ensures lastBeat == (if spawned then now else old(lastBeat))
      ensures |hitObjects| >= |old(hitObjects)| && hitObjects[..|old(hitObjects)|] == old(hitObjects)
      ensures spawned ==> fresh(hitObjects[|hitObjects| - 1])
      ensures forall o :: o in hitObjects ==> o in old(hitObjects) || fresh(o)
      ensures score == old(score)
    {
      spawned := now - lastBeat >= interval;
      if spawned {
        var obj := new HitObject(SCREEN_WIDTH, LINE_Y, HIT_OBJECT_SIZE, HIT_OBJECT_SPEED);
        DistinctAppend(hitObjects, obj);
        hitObjects := hitObjects + [obj];
        lastBeat := now;
      }
    }

    /** The end of a frame: each hit object moves and is removed once it has
        left the screen; each firework loses a frame and is removed once it has
        none left. Survivors keep their order. */
    method Step()
      requires Valid()
      modifies this`hitObjects, this`fireworks, hitObjects`x, fireworks`duration
      ensures Valid()
      ensures Hits() == Advance(old(Hits()))
      ensures Fws() == Expire(old(Fws()))
      ensures score == old(score)
      ensures forall o :: o in hitObjects ==> o in old(hitObjects)
      ensures forall o :: o in fireworks ==> o in old(fireworks)
    {
      MoveHitObjects();
      ExpireFireworks();
    }

    /** Moves every hit object one frame and keeps, in order, those still on
        screen as the live list: the list the source's `remove` calls leave behind. */
    method MoveHitObjects()
      requires HitsValid()
      modifies this`hitObjects, hitObjects`x
      ensures HitsValid()
      ensures Hits() == Advance(old(Hits()))
      ensures hitObjects == RemovalWalk(old(hitObjects), old(hitObjects), Leaving(old(Hits())), 0)
      ensures Fws() == old(Fws()) && (old(FwsValid()) ==> FwsValid())
      ensures score == old(score)
      ensures forall o :: o in hitObjects ==> o in old(hitObjects)
    {
      ghost var before := Hits();
      ghost var fwStates := Fws();
      var snap := hitObjects;
      var kept := MoveAll(snap);
      FwViewsAre(fireworks, fwStates);
      RemovalIsFilter(snap, Leaving(before));
      AdvanceKeepsWellFormed(before);
      forall o | o in kept ensures o in snap { UndroppedMembers(snap, Leaving(before), o); }
      hitObjects := kept;
    }

    /** Counts every firework down one frame and keeps, in order, those with
        frames left as the live list: the list the source's `remove` calls leave behind. */
    method ExpireFireworks()
      requires FwsValid()
      modifies this`fireworks, fireworks`duration
      ensures FwsValid()
      ensures Fws() == Expire(old(Fws()))
      ensures fireworks == RemovalWalk(old(fireworks), old(fireworks), Expiring(old(Fws())), 0)
      ensures Hits() == old(Hits()) && (old(HitsValid()) ==> HitsValid())
      ensures score == old(score)
      ensures forall o :: o in fireworks ==> o in old(fireworks)
    {
      ghost var before := Fws();
      ghost var hits := Hits();
      var snap := fireworks;
      var kept := TickAll(snap);
      HitViewsAre(hitObjects, hits);
      RemovalIsFilter(snap, Expiring(before));
      ExpireKeepsWellFormed(before);
      forall o | o in kept ensures o in snap { UndroppedMembers(snap, Expiring(before), o); }
      fireworks := kept;
    }
  }

  /** Walks the hit objects in order and resolves the click on each one:
      every object that qualifies adds the award to the running score, gets
      both flags set and is reported, in order, as one that launches a firework. */
  method ClickEach(objs: seq<HitObject>, px: int, py: int, score0: int)
      returns (score: int, scoredObjs: seq<HitState>)
    requires Distinct(objs)
    modifies objs`counted, objs`scored
    ensures HitViews(objs) == ClickAll(old(HitViews(objs)), px, py)
    ensures scoredObjs == Qualifying(old(HitViews(objs)), px, py)
    ensures score == score0 + HIT_SCORE * |scoredObjs|
  {
    ghost var before := HitViews(objs);
    ghost var after := ClickAll(before, px, py);
    score, scoredObjs := score0, [];
    for i := 0 to |objs|
      invariant forall j :: 0 <= j < i ==> objs[j].View() == after[j]
      invariant forall j :: i <= j < |objs| ==> objs[j].View() == before[j]
      invariant scoredObjs == Qualifying(before[..i], px, py)
      invariant score == score0 + HIT_SCORE * |scoredObjs|
    {
      var obj := objs[i];
      ClickAllAt(before, px, py, i);
      DistinctApart(objs, i);
      ClickStep(before, px, py, i);
      var h := obj.View();
      if h.Qualifies(px, py) {
        obj.counted := true;
        obj.scored := true;
        score := score + HIT_SCORE;
        scoredObjs := scoredObjs + [h];
      }
    }
    assert before[..|objs|] == before;
    HitViewsAre(objs, after);
  }

  /** One new firework, with its particles generated, at the position of each
      scored object, in order. */
  method Launch(scoredObjs: seq<HitState>) returns (launched: seq<Firework>)
    ensures FwViews(launched) == Bursts(scoredObjs)
    ensures forall j :: 0 <= j < |launched| ==> fresh(launched[j])
    ensures Distinct(launched)
  {
    launched := [];
    for i := 0 to |scoredObjs|
      invariant |launched| == i
      invariant forall j :: 0 <= j < i ==> fresh(launched[j]) && launched[j].View() == Burst(scoredObjs[j])
      invariant Distinct(launched)
    {
      var h := scoredObjs[i];
      var fw := new Firework(h.x, h.y, FIREWORK_SIZE, FIREWORK_DURATION);
      fw.GenerateParticles();
      DistinctAppend(launched, fw);
      launched := launched + [fw];
    }
    FwViewsAre(launched, Bursts(scoredObjs));
  }

  /** Walks a snapshot of hit objects, moving each one and collecting, in
      order, those not yet off screen. */
  method MoveAll(snap: seq<HitObject>) returns (kept: seq<HitObject>)
    requires Distinct(snap)
    modifies snap`x
    ensures forall j :: 0 <= j < |snap| ==> snap[j].View() == old(snap[j].View()).Moved()
    ensures kept == Undropped(snap, Leaving(old(HitViews(snap))))
    ensures HitViews(kept) == Advance(old(HitViews(snap))) && Distinct(kept)
  {
    ghost var before := HitViews(snap);
    ghost var leaving := Leaving(before);
    kept := [];
    for i := 0 to |snap|
      invariant forall j :: 0 <= j < i ==> snap[j].View() == before[j].Moved()
      invariant forall j :: i <= j < |snap| ==> snap[j].View() == before[j]
      invariant kept == Undropped(snap[..i], leaving[..i])
    {
      var obj := snap[i];
      DistinctApart(snap, i);
      UndroppedStep(snap, leaving, i);
      obj.Update();
      if !(obj.x < -obj.size) {
        kept := kept + [obj];
      }
    }
    assert snap[..|snap|] == snap && leaving[..|snap|] == leaving;
    SurvivorHitViews(snap, before);
    UndroppedDistinct(snap, leaving);
  }

  /** Walks a snapshot of fireworks, counting each one down and collecting,
      in order, those with frames left. */
  method TickAll(snap: seq<Firework>) returns (kept: seq<Firework>)
    requires Distinct(snap)
    modifies snap`duration
    ensures forall j :: 0 <= j < |snap| ==> snap[j].View() == old(snap[j].View()).Ticked()
    ensures kept == Undropped(snap, Expiring(old(FwViews(snap))))
    ensures FwViews(kept) == Expire(old(FwViews(snap))) && Distinct(kept)
  {
    ghost var before := FwViews(snap);
    ghost var expiring := Expiring(before);
    kept := [];
    for i := 0 to |snap|
      invariant forall j :: 0 <= j < i ==> snap[j].View() == before[j].Ticked()
      invariant forall j :: i <= j < |snap| ==> snap[j].View() == before[j]
      invariant kept == Undropped(snap[..i], expiring[..i])
    {
      var fw := snap[i];
      DistinctApart(snap, i);
      UndroppedStep(snap, expiring, i);
      fw.CountDown();
      if !(fw.duration <= 0) {
        kept := kept + [fw];
      }
    }
    assert snap[..|snap|] == snap && expiring[..|snap|] == expiring;
    SurvivorFwViews(snap, before);
    UndroppedDistinct(snap, expiring);
  }

  /** Once every object has moved, the ones left after dropping those that
      left the screen show exactly the states `Advance` predicts. */
  lemma {:induction false} SurvivorHitViews(objs: seq<HitObject>, hs: seq<HitState>)
    requires |objs| == |hs| && forall j :: 0 <= j < |objs| ==> objs[j].View() == hs[j].Moved()
    ensures HitViews(Undropped(objs, Leaving(hs))) == Advance(hs)
  {
    if objs != [] {
      var n := |objs|;
      SurvivorHitViews(objs[..n - 1], hs[..n - 1]);
      assert Leaving(hs)[..n - 1] == Leaving(hs[..n - 1]);
      var init := Undropped(objs[..n - 1], Leaving(hs[..n - 1]));
      if Leaving(hs)[n - 1] {
        assert init + [] == init;
      } else {
        assert HitViews(init + [objs[n - 1]]) == HitViews(init) + [objs[n - 1].View()];
      }
    }
  }

  /** Once every firework has ticked, the ones left after dropping those out
      of frames show exactly the states `Expire` predicts. */
  lemma {:induction false} SurvivorFwViews(fws: seq<Firework>, fs: seq<FwState>)
    requires |fws| == |fs| && forall j :: 0 <= j < |fws| ==> fws[j].View() == fs[j].Ticked()
    ensures FwViews(Undropped(fws, Expiring(fs))) == Expire(fs)
  {
    if fws != [] {
      var n := |fws|;
      SurvivorFwViews(fws[..n - 1], fs[..n - 1]);
      assert Expiring(fs)[..n - 1] == Expiring(fs[..n - 1]);
      var init := Undropped(fws[..n - 1], Expiring(fs[..n - 1]));
      if Expiring(fs)[n - 1] {
        assert init + [] == init;
      } else {
        assert FwViews(init + [fws[n - 1]]) == FwViews(init) + [fws[n - 1].View()];
      }
    }
  }
}
