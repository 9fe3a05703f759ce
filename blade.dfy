/** The part of `BladeBase` with visible behaviour: the LED colour writes with
    their default `set_overdrive` and `clear`, the effect queue and the
    primary flag that the detector reads. */
module Blades {
  import opened Effects

  /** The source's `uint16_t` colour channel. */
  newtype uint16 = x: int | 0 <= x < 0x1_0000

  /** A 16-bit-per-channel colour; `Color16()` is all zero. */
  datatype Color16 = Color16(r: uint16, g: uint16, b: uint16)

  const Black: Color16 := Color16(0, 0, 0)

  /** One blade. `leds` is the colour buffer the blade writes into, of which
      the first `numLeds` entries are this blade's LEDs (a driver may hand out
      a buffer larger than the strip); `effects` is what `GetEffects` returns
      this tick and `primary` what `IsPrimary` returns. */
  class Blade {
    var leds: array<Color16>
    var numLeds: nat
    var effects: seq<BladeEffect>
    var primary: bool

    ghost predicate Valid()
      reads this
    {
      numLeds <= leds.Length
    }

    constructor (buffer: array<Color16>, n: nat, queue: seq<BladeEffect>, isPrimary: bool)
      requires n <= buffer.Length
      ensures Valid()
      ensures leds == buffer && numLeds == n && effects == queue && primary == isPrimary
    {
      leds, numLeds, effects, primary := buffer, n, queue, isPrimary;
    }

    /** `num_leds()`. */
    function NumLeds(): (n: int)
      reads this
      requires Valid()
      ensures 0 <= n <= leds.Length
    {
      numLeds
    }

    /** `set(led, c)`: LED `led` takes colour `c`; an index outside the blade
        is ignored. No other entry of the buffer changes. */
    method Set(led: int, c: Color16)
      requires Valid()
      modifies leds
      ensures 0 <= led < numLeds ==> leds[..] == old(leds[..])[led := c]
      ensures !(0 <= led < numLeds) ==> leds[..] == old(leds[..])
    {
      if 0 <= led < numLeds {
        leds[led] := c;
      }
    }

    /** The default `set_overdrive` delegates to `set`, so it writes the same colour. */
    method SetOverdrive(led: int, c: Color16)
      requires Valid()
      modifies leds
      ensures 0 <= led < numLeds ==> leds[..] == old(leds[..])[led := c]
      ensures !(0 <= led < numLeds) ==> leds[..] == old(leds[..])
    {
      Set(led, c);
    }

    /** The default `clear`: every LED of the blade becomes black and the rest
        of the buffer is untouched. */
    method Clear()
      requires Valid()
      modifies leds
      ensures forall i :: 0 <= i < numLeds ==> leds[i] == Black
      ensures forall i :: numLeds <= i < leds.Length ==> leds[i] == old(leds[i])
    {
      var i := 0;
      while i < NumLeds()
        invariant 0 <= i <= numLeds
        invariant forall j :: 0 <= j < i ==> leds[j] == Black
        invariant forall j :: i <= j < leds.Length ==> leds[j] == old(leds[j])
      {
        Set(i, Black);
        i := i + 1;
      }
    }
  }
}
