/** Value types shared by the blade-effect core: the effect kinds the
    detector distinguishes, the effect record a blade queues each tick, and
    the optional result of a search. */
module Effects {

  /** The source's `uint32_t`; timestamps are compared only for equality. */
  newtype uint32 = x: int | 0 <= x < 0x1_0000_0000

  datatype Option<+T> = None | Some(value: T)

  /** The effect kinds `OneshotEffectDetector` tells apart. Every other kind of
      the firmware's effect enumeration is `Other(n)`, where `n` is an opaque
      tag standing for one of the kinds not named here (never clash, stab,
      interactive preon or interactive blast). */
  datatype EffectType = Clash | Stab | InteractivePreon | InteractiveBlast | Other(n: nat)

  /** Where on the blade an effect is anchored (0 = base, 1 = tip); carried opaquely. */
  datatype EffectLocation = EffectLocation(position: int)

  /** One queued occurrence of an effect. `startMicros` identifies the
      occurrence; `soundLength` and `wavnum` are opaque audio metadata. */
  datatype BladeEffect = BladeEffect(
    kind: EffectType,
    startMicros: uint32,
    location: EffectLocation,
    soundLength: real,
    wavnum: int)
}
