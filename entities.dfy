/** The two kinds of game object, as objects whose fields the game changes in
    place: a hit object (its x moves, its flags get set) and a firework (its
    frame counter runs down, its particle list gets filled). */
module Entities {
  import opened Rules

  class HitObject {
    var x: int
    const y: int
    const size: int
    const speed: int
    var counted: bool
    var scored: bool

    /** The object's current state as a value. */
    function View(): HitState
      reads this
    {
      HitState(x, y, size, speed, counted, scored)
    }

    /** A new object starts with both flags clear. */
    constructor (x0: int, y0: int, size0: int, speed0: int)
      ensures View() == HitState(x0, y0, size0, speed0, false, false)
    {
      x, y, size, speed := x0, y0, size0, speed0;
      counted, scored := false, false;
    }

    /** One frame of movement: x goes down by exactly `speed`; nothing else changes. */
    method Update()
      modifies this`x
      ensures View() == old(View()).Moved()
      ensures x == old(x) - speed
    {
      x := x - speed;
    }
  }

  class Firework {
    const x: int
    const y: int
    const size: int
    var duration: int
    var particles: seq<int>

    function View(): FwState
      reads this
    {
      FwState(x, y, size, duration, particles)
    }

    /** A new firework has no particles until they are generated. */
    constructor (x0: int, y0: int, size0: int, duration0: int)
      ensures View() == FwState(x0, y0, size0, duration0, [])
    {
      x, y, size, duration := x0, y0, size0, duration0;
      particles := [];
    }

    /** Appends one particle per angle of `range(0, 360, 360 // size)`. The game
        only ever uses size 20. Other sizes are outside the model: the source
        raises for a size of 0 or above 360, and for a negative size the step is
        negative, the range is empty and no particle is made. */
    method GenerateParticles()
      requires 0 < size <= 360
      modifies this`particles
      ensures particles == old(particles) + ParticleAngles(size)
    {
      var step := 360 / size;
      var angle := 0;
      while angle < 360
        invariant particles + Range(angle, 360, step) == old(particles) + ParticleAngles(size)
        decreases 360 - angle
      {
        particles := particles + [angle];
        angle := angle + step;
      }
    }

    /** One frame off the firework's remaining life. */
    method CountDown()
      modifies this`duration
      ensures View() == old(View()).Ticked()
    {
      duration := duration - 1;
    }
  }
}
