# ProffieOS blade-effect detection, in Dafny

This project models the blade-effect core of ProffieOS, the lightsaber prop
firmware: `blades/blade_base.h`. It covers four pieces.

- **Handled-feature registry.** This is the static `handled_features_` bit mask. While style layers are constructed, they use it to declare which effect categories they implement (`HandleFeature`, `GetHandledTypes`, `ResetHandledTypes`).
- **Blade.** This is the part of `BladeBase` whose behaviour is visible: `num_leds`, `set`, the default `set_overdrive` and `clear`, the effect queue returned by `GetEffects`, and `IsPrimary`.
- **`OneshotEffectDetector`.** A detector belongs to one effect kind.
  - Its constructor declares a feature for stab, interactive preon and interactive blast.
  - `Find` is a first-match scan of the blade's effect queue. It has a clash/stab fallback.
  - `Detect` never reports the same `start_micros` twice in a row, and reports an occurrence once while it stays the first match. It keeps only one timestamp, so an occurrence that a newer match hid for a while is reported again (`ShadowedOccurrenceReportedAgain`).
  - `DetectScoped` also publishes the raw `Find` result to the global `last_detected_blade_effect`.
- **`SaveLastDetectedBladeEffectScoped`.** This guard saves that global slot and restores it.

Modules:

- `Effects` (`effects.dfy`): effect kinds, the `BladeEffect` record, `uint32`.
- `HandledFeatures` (`handled_features.dfy`): the feature flags, their bits, mask lemmas and the `Registry` class.
- `Blades` (`blade.dfy`): the `Blade` class over a colour buffer `array<Color16>`.
- `Detection` (`detection.dfy`): `Find`, `Detect` and constructor declarations as pure functions, with lemmas about single calls, runs of ticks and registry accumulation.
- `Detectors` (`oneshot_detector.dfy`): the detector class, the global slot and the guard. Each method is proved against the functions in `Detection`.

The two process-wide globals become objects that are passed to the operations that use them: `handled_features_` becomes a `Registry` and `last_detected_blade_effect` becomes an `EffectSlot`.

`Find` and `Detect` return a pointer into the blade's effect array. Here they return the index of that element (`Option<nat>`, with `None` for `nullptr`). The slot holds the record the pointer designates.

The style's `IsHandled(HANDLED_FEATURE_STAB)` is an input to `Find`, `styleHandlesStab`. The blade's `IsPrimary()` is the field `primary`.

`last_detected_` is never initialised (`blades/blade_base.h:106-120`, `:158`), so the constructor takes its first value as a parameter. No property claims that the first occurrence is always reported; `FirstMatchCanBeSuppressed` shows when it is not.

`Registry.constructor`, `OneshotEffectDetector.constructor` and `BuildDetectors` model the construction of a style graph. `BuildDetectors` resets nothing itself: it shows that constructing detectors in order leaves the registry at `Accumulated` of their kinds. From a reset registry that is the mask `AccumulatedFromReset` describes.

## Model

| member | source | states |
|---|---|---|
| HandledFeatures.Bit | blades/blade_base.h:8-18 | a feature's bit is zero exactly for `HANDLED_FEATURE_NONE`; the others are `1 << 0` … `1 << 7` |
| HandledFeatures.BitsDisjoint | blades/blade_base.h:8-18 | two distinct features own disjoint bits |
| HandledFeatures.MaskDeterminedByFeatures | blades/blade_base.h:8-18 | two masks that record the same features are equal, because the eight flags cover all eight bits |
| HandledFeatures.DeclareHas | blades/blade_base.h:74-76 | after OR-ing in `f`, a feature is recorded iff it was recorded before or it is `f` (and `f` is not NONE) |
| HandledFeatures.DeclareKeepsBits | blades/blade_base.h:74-76 | declaring never clears a bit that was set before (monotonic accumulation) |
| HandledFeatures.DeclareIdempotent | blades/blade_base.h:74-76 | declaring the same feature twice gives the same mask as declaring it once |
| HandledFeatures.DeclareCommutes | blades/blade_base.h:74-76 | the order of two declarations does not matter |
| HandledFeatures.Registry.constructor | blades/blade_base.h:90 | the static mask starts at `HANDLED_FEATURE_NONE` and records no feature |
| HandledFeatures.Registry.HandleFeature | blades/blade_base.h:74-76 | the new mask is the old mask OR the feature's bit; old bits stay set and exactly `f` is added |
| HandledFeatures.Registry.GetHandledTypes | blades/blade_base.h:78-80 | the returned mask records exactly the features the registry holds |
| HandledFeatures.Registry.ResetHandledTypes | blades/blade_base.h:81-83 | afterwards the mask is `HANDLED_FEATURE_NONE` (0) and records no feature |
| Blades.Blade.constructor | blades/blade_base.h:31-64 | a blade holds its colour buffer, LED count, effect queue and primary flag, with no more LEDs than the buffer holds |
| Blades.Blade.NumLeds | blades/blade_base.h:33-34 | the LED count is between 0 and the buffer length |
| Blades.Blade.Set | blades/blade_base.h:48-49 | LED `led` takes colour `c` and no other buffer entry changes; an index outside the blade changes nothing |
| Blades.Blade.SetOverdrive | blades/blade_base.h:51-53 | the default `set_overdrive` has exactly the effect of `set` |
| Blades.Blade.Clear | blades/blade_base.h:55-58 | every LED `0 .. num_leds()-1` becomes the zero colour; the buffer beyond the blade is untouched |
| Detection.DeclaredFeature | blades/blade_base.h:106-120 | a detector declares STAB iff its kind is stab, INTERACTIVE_PREON iff interactive preon, INTERACTIVE_BLAST iff interactive blast, and nothing for every other kind |
| Detection.FindFrom | blades/blade_base.h:129-135 | the scan returns an index whose record matches and no earlier index matches; it returns none iff no record matches |
| Detection.FindMatchUnique | blades/blade_base.h:129-135 | the first matching index is the one `Find` returns: the first-match property determines the result |
| Detection.StabMatchesOnlyUnderFallback | blades/blade_base.h:124-131 | a record of another kind matches iff the detector is clash, the record is stab, the style does not handle stab and the blade is primary |
| Detection.ClashFindsUnhandledStab | blades/blade_base.h:124-135 | with stab records and no clash record, a clash detector finds the first stab iff the style does not handle stab and the blade is primary; otherwise it finds nothing |
| Detection.DetectReportsNewOccurrence | blades/blade_base.h:137-144 | `Detect` reports iff `Find` matches with a timestamp different from the remembered one; it then reports that match and remembers its timestamp, otherwise it keeps the remembered value |
| Detection.EmptyQueueDetectsNothing | blades/blade_base.h:129-139 | an empty queue gives no match and no report, and the remembered value is unchanged |
| Detection.DetectTwiceReportsOnce | blades/blade_base.h:137-144 | a second `Detect` on the same queue reports nothing and changes nothing |
| Detection.FirstMatchCanBeSuppressed | blades/blade_base.h:137-142 | when the uninitialised key happens to equal the first match's timestamp, that first occurrence is not reported |
| Detection.StabTreatedAsClashScenario | blades/blade_base.h:121-144 | queue `[stab at 100]` on a primary blade whose style does not handle stab: clash finds index 0, reports it once, then not again; on a secondary blade, or when the style handles stab, it finds nothing |
| Detection.ReportedStampsNeverRepeat | blades/blade_base.h:137-144 | over any run of ticks, the first report differs from the initial key, no two consecutive reports share a timestamp, and the final key is the last report |
| Detection.LingeringOccurrenceReportedOnce | blades/blade_base.h:137-144 | an occurrence that stays the match for any number of ticks is reported exactly once (on the first tick) if its timestamp is new, and never otherwise |
| Detection.ShadowedOccurrenceReportedAgain | blades/blade_base.h:137-144 | with clash A@1 queued on all three ticks and B@2 ahead of it on the second, the reported stamps are `[1, 2, 1]`: A is reported twice because the key at :158 holds one timestamp |
| Detection.AccumulatedHas | blades/blade_base.h:106-120 | after constructing detectors of a list of kinds, a feature is recorded iff it was recorded before or some detector in the list declares it |
| Detection.AccumulatedFromReset | blades/blade_base.h:106-120 | from a reset registry, STAB, INTERACTIVE_PREON and INTERACTIVE_BLAST are recorded iff a detector of that kind was built, and no other feature is recorded |
| Detectors.EffectSlot.constructor | blades/blade_base.h:92 | the global slot starts out empty (`NULL`) |
| Detectors.SaveLastDetectedScoped.constructor | blades/blade_base.h:96 | the guard records the slot's current value |
| Detectors.SaveLastDetectedScoped.Release | blades/blade_base.h:97 | the destructor puts the recorded value back in the slot |
| Detectors.BuildDetectors | blades/blade_base.h:106-120 | constructing detectors for a list of kinds, in order, gives one detector per kind with that kind and its own arbitrary initial key, and leaves the registry at the old mask OR every declared feature (`Accumulated`) |
| Detectors.OneshotEffectDetector.constructor | blades/blade_base.h:106-120 | the key starts at an arbitrary value; the registry becomes old mask OR the kind's declared feature, and is unchanged for kinds other than stab, interactive preon and interactive blast |
| Detectors.OneshotEffectDetector.Find | blades/blade_base.h:121-136 | the scan loop returns the first index whose record is of the detector's kind, or is stab under the fallback; it returns none when nothing matches |
| Detectors.OneshotEffectDetector.Detect | blades/blade_base.h:137-144 | return value and new key are those of the dedup step applied to `Find`'s match and the old key |
| Detectors.OneshotEffectDetector.DetectScoped | blades/blade_base.h:145-155 | same return value and key update as `Detect`; the slot holds `Find`'s record (or none), even when the dedup step suppresses the return value |
| Detectors.OneshotEffectDetector.LastDetectedMicros | blades/blade_base.h:156 | returns the dedup key `last_detected_` |
| Detectors.DetectEachTick | blades/blade_base.h:137-144 | calling `Detect` once per tick reports exactly the stamps `ReportedStamps` gives and leaves the key at `LastAfter`, so the multi-tick lemmas hold of the detector object |
| Detectors.GuardedDetectScoped | blades/blade_base.h:94-100 | a `DetectScoped` run inside the guard reports as usual, and afterwards the slot holds exactly what it held before the guard was built |

## Left out

- `config/s3config_PowerCore_Kros.h` is not part of this model. It holds only build flags, preset lists, style template instantiations and pin wiring, and no algorithm.
- Hardware hooks without visible behaviour are left out: `get_byteorder`, `is_on`, `is_powered`, `allow_disable`, `Activate` and `Deactivate`. Colour-space conversion is left out too.
- `SetStyle`, `UnSetStyle`, `current_style` and `BladeStyle::IsHandled` belong to `styles/blade_style.h`, which is not part of this model. The style's answer for stab is a boolean input to `Find`. A null `current_style()` is not modelled.
- The effect kind enumeration lives in `common/saber_base.h`, which is not part of this model. Only the kinds the detector tells apart are named; all others are `Other(n)`.
- `sound_length` (a `float`) is carried as an opaque `real`. `location` and `wavnum` are carried as opaque values. No property depends on any of them.
- Pointer identity is not modelled. `Find` and `Detect` give an index into the queue, and the slot holds the record itself, not a pointer into the blade's array. This means the model does not capture the fact that the array is overwritten on the next tick.
- The static registry and the global slot are objects passed to the operations, not hidden globals. Single-threaded use is assumed, as in the firmware.
- Detectors.GuardedDetectScoped: the guard's body is one inner `DetectScoped`. Arbitrary bodies and exits by early return are not modelled; `Release` restores the slot whatever was written before it.
- Blades.Blade.Set: `set` is pure virtual (blades/blade_base.h:49). The model's `Set` ignores an index outside `0 .. num_leds()-1`; concrete drivers may differ.
- Detection.LingeringOccurrenceReportedOnce: an occurrence is reported at most once only while it stays the first match. `last_detected_` (blades/blade_base.h:158) holds a single timestamp, so once a newer match has been reported, an older occurrence that comes back to the front is reported again (`ShadowedOccurrenceReportedAgain`). No per-occurrence at-most-once property over arbitrary runs is claimed.
