/** `OneshotEffectDetector`, the global "last detected blade effect" slot and
    the guard that saves and restores that slot. The slot and the registry,
    process-wide globals in the firmware, are objects handed to the
    operations that use them. */
module Detectors {
  import opened Effects
  import opened HandledFeatures
  import opened Blades
  import opened Detection

  /** `last_detected_blade_effect`: the record the latest `DetectScoped`
      found, which dependent colour primitives read during the same tick. */
  class EffectSlot {
    var current: Option<BladeEffect>

    /** The global starts out `NULL`. */
    constructor ()
      ensures current == None
    {
      current := None;
    }
  }

  /** `SaveLastDetectedBladeEffectScoped`: construction records the slot and
      `Release` (the destructor) writes the recorded value back. */
  class SaveLastDetectedScoped {
    const slot: EffectSlot
    const saved: Option<BladeEffect>

    constructor (slot: EffectSlot)
      ensures this.slot == slot && saved == slot.current
    {
      this.slot := slot;
      saved := slot.current;
    }

    /** The destructor: the slot holds again what it held at construction,
        whatever was written to it meanwhile. */
    method Release()
      modifies slot
      ensures slot.current == saved
    {
      slot.current := saved;
    }
  }

  /** One detector for effect kind `effect`. `lastDetected` is
      `last_detected_`, the timestamp of the last occurrence reported. */
  class OneshotEffectDetector {
    const effect: EffectType
    var lastDetected: uint32

    /** The source never initialises `last_detected_`, so its first value is
        the arbitrary `initial`. Construction declares stab, interactive
        preon or interactive blast for detectors of those kinds and leaves
        the registry alone for every other kind. */
    constructor (effect: EffectType, initial: uint32, registry: Registry)
      modifies registry
      ensures this.effect == effect && lastDetected == initial
      ensures registry.handled == Declare(old(registry.handled), DeclaredFeature(effect))
      ensures !(effect == Stab || effect == InteractivePreon || effect == InteractiveBlast) ==>
        registry.handled == old(registry.handled)
    {
      this.effect := effect;
      lastDetected := initial;
      match effect
      case Stab => registry.HandleFeature(FeatureStab);
      case InteractivePreon => registry.HandleFeature(FeatureInteractivePreon);
      case InteractiveBlast => registry.HandleFeature(FeatureInteractiveBlast);
      case _ =>
    }

    /** `Find`: the index of the first record in the blade's queue of this
        detector's kind, or a stab record when the stab fallback is on;
        `None` when no record matches (in particular for an empty queue). */
    method Find(blade: Blade, styleHandlesStab: bool) returns (r: Option<nat>)
      ensures r == FindMatch(blade.effects, effect, StabFallback(effect, styleHandlesStab, blade.primary))
      ensures r.Some? ==> r.value < |blade.effects|
    {
      var effects := blade.effects;
      var n := |effects|;
      var matchStab := effect == Clash && !styleHandlesStab && blade.primary;
      var i := 0;
      while i < n
        invariant 0 <= i <= n
        invariant forall j :: 0 <= j < i ==> !Matches(effect, matchStab, effects[j])
      {
        if effect == effects[i].kind || (matchStab && effects[i].kind == Stab) {
          FindMatchUnique(effects, effect, matchStab, i);
          return Some(i);
        }
        i := i + 1;
      }
      return None;
    }

    /** `Detect`: `Find`'s match if its timestamp is not the remembered one,
        remembering it; otherwise `None` with the remembered timestamp kept. */
    method Detect(blade: Blade, styleHandlesStab: bool) returns (r: Option<nat>)
      modifies this
      ensures var o := DetectOn(blade.effects, effect, StabFallback(effect, styleHandlesStab, blade.primary), old(lastDetected));
        r == o.reported && lastDetected == o.last
    {
      var e := Find(blade, styleHandlesStab);
      if e.None? {
        return None;
      }
      if blade.effects[e.value].startMicros == lastDetected {
        return None;
      }
      lastDetected := blade.effects[e.value].startMicros;
      return e;
    }

    /** `DetectScoped`: as `Detect`, and it also publishes `Find`'s record to
        the slot before the timestamp check, so the slot shows the match even
        on a tick where the return value suppresses it as a repeat. */
    method DetectScoped(blade: Blade, styleHandlesStab: bool, slot: EffectSlot) returns (r: Option<nat>)
      modifies this, slot
      ensures var o := DetectOn(blade.effects, effect, StabFallback(effect, styleHandlesStab, blade.primary), old(lastDetected));
        r == o.reported && lastDetected == o.last
      ensures slot.current == Found(blade.effects, effect, StabFallback(effect, styleHandlesStab, blade.primary))
    {
      var e := Find(blade, styleHandlesStab);
      slot.current := if e.Some? then Some(blade.effects[e.value]) else None;
      if e.None? {
        return None;
      }
      if blade.effects[e.value].startMicros == lastDetected {
        return None;
      }
      lastDetected := blade.effects[e.value].startMicros;
      return e;
    }

    /** `last_detected_micros()`: the dedup key, i.e. the timestamp of the
        last reported occurrence (or the initial value before any report). */
    function LastDetectedMicros(): (t: uint32)
      reads this
      ensures t == lastDetected
    {
      lastDetected
    }
  }

  /** Building a style graph's detectors: one detector per entry of `kinds`,
      constructed in order, each declaring its feature in `registry`. Each
      detector's uninitialised key is the matching entry of `initials`. */
  method BuildDetectors(kinds: seq<EffectType>, initials: seq<uint32>, registry: Registry)
    returns (detectors: seq<OneshotEffectDetector>)
    requires |initials| == |kinds|
    modifies registry
    ensures registry.handled == Accumulated(kinds, old(registry.handled))
    ensures |detectors| == |kinds|
    ensures forall i :: 0 <= i < |kinds| ==>
      detectors[i].effect == kinds[i] && detectors[i].lastDetected == initials[i] && fresh(detectors[i])
  {
    detectors := [];
    var i := 0;
    while i < |kinds|
      invariant 0 <= i <= |kinds|
      invariant Accumulated(kinds[i..], registry.handled) == Accumulated(kinds, old(registry.handled))
      invariant |detectors| == i
      invariant forall j :: 0 <= j < i ==>
        detectors[j].effect == kinds[j] && detectors[j].lastDetected == initials[j] && fresh(detectors[j])
    {
      assert kinds[i..][1..] == kinds[i + 1..];
      var d := new OneshotEffectDetector(kinds[i], initials[i], registry);
      detectors := detectors + [d];
      i := i + 1;
    }
    assert kinds[i..] == [];
  }

  /** One `Detect` call per tick on `blade`, whose queue on tick `k` is
      `ticks[k]`. The timestamps reported, in order, and the key afterwards
      are those of the tick-by-tick model, so the properties proved about
      `ReportedStamps` and `LastAfter` hold of the detector object. */
  method DetectEachTick(detector: OneshotEffectDetector, blade: Blade, styleHandlesStab: bool,
                        ticks: seq<seq<BladeEffect>>)
    returns (stamps: seq<uint32>)
    modifies detector, blade`effects
    ensures var ms := StabFallback(detector.effect, styleHandlesStab, blade.primary);
      && stamps == ReportedStamps(ticks, detector.effect, ms, old(detector.lastDetected))
      && detector.lastDetected == LastAfter(ticks, detector.effect, ms, old(detector.lastDetected))
  {
    ghost var ms := StabFallback(detector.effect, styleHandlesStab, blade.primary);
    ghost var last0 := detector.lastDetected;
    stamps := [];
    var i := 0;
    while i < |ticks|
      invariant 0 <= i <= |ticks|
      invariant ReportedStamps(ticks, detector.effect, ms, last0)
        == stamps + ReportedStamps(ticks[i..], detector.effect, ms, detector.lastDetected)
      invariant LastAfter(ticks, detector.effect, ms, last0)
        == LastAfter(ticks[i..], detector.effect, ms, detector.lastDetected)
    {
      RunStep(ticks, i, detector.effect, ms, detector.lastDetected);
      ghost var before := stamps;
      ghost var o := DetectOn(ticks[i], detector.effect, ms, detector.lastDetected);
      blade.effects := ticks[i];
      var r := detector.Detect(blade, styleHandlesStab);
      assert r == o.reported && detector.lastDetected == o.last;
      if r.Some? {
        stamps := stamps + [blade.effects[r.value].startMicros];
      }
      assert stamps == before + if o.reported.Some? then [o.last] else [];
      i := i + 1;
    }
    assert ticks[i..] == [];
  }

  /** A nested detection pass inside the guard: the inner `DetectScoped`
      reports as usual, and once the guard is released the slot is back to
      what the enclosing pass had put there. */
  method GuardedDetectScoped(detector: OneshotEffectDetector, blade: Blade, styleHandlesStab: bool, slot: EffectSlot)
    returns (r: Option<nat>)
    modifies detector, slot
    ensures var o := DetectOn(blade.effects, detector.effect,
                              StabFallback(detector.effect, styleHandlesStab, blade.primary), old(detector.lastDetected));
      r == o.reported && detector.lastDetected == o.last
    ensures slot.current == old(slot.current)
  {
    var guard := new SaveLastDetectedScoped(slot);
    r := detector.DetectScoped(blade, styleHandlesStab, slot);
    guard.Release();
  }
}
