/** The handled-feature registry: a process-wide bit mask in which style
    layers declare, while they are being constructed, which effect
    categories they implement. The firmware keeps it in a static field of
    `BladeBase`; here it is an object that its users share. */
module HandledFeatures {

  /** The `HandledFeature` enumeration; each named feature owns one bit. */
  datatype HandledFeature =
    | FeatureNone
    | FeatureChange
    | FeatureChangeTicked
    | FeatureStab
    | FeatureDrag
    | FeatureMelt
    | FeatureLightningBlock
    | FeatureInteractivePreon
    | FeatureInteractiveBlast

  /** The enumerator's value: `HANDLED_FEATURE_NONE` is 0 and the others are
      `1 << 0` through `1 << 7` in declaration order. */
  function Bit(f: HandledFeature): (b: bv8)
    ensures b == 0 <==> f == FeatureNone
  {
    match f
    case FeatureNone => 0
    case FeatureChange => 1 << 0
    case FeatureChangeTicked => 1 << 1
    case FeatureStab => 1 << 2
    case FeatureDrag => 1 << 3
    case FeatureMelt => 1 << 4
    case FeatureLightningBlock => 1 << 5
    case FeatureInteractivePreon => 1 << 6
    case FeatureInteractiveBlast => 1 << 7
  }

  /** Whether `mask` records feature `f` as handled (never true of `FeatureNone`). */
  predicate Has(mask: bv8, f: HandledFeature) {
    f != FeatureNone && mask & Bit(f) != 0
  }

  /** The mask after declaring `f`: the old mask OR the feature's bit. */
  function Declare(mask: bv8, f: HandledFeature): bv8 {
    mask | Bit(f)
  }

  /** Distinct features own disjoint bits, so declaring one never declares another. */
  lemma BitsDisjoint(f: HandledFeature, g: HandledFeature)
    requires f != g
    ensures Bit(f) & Bit(g) == 0
  {
  }

  /** A mask is determined by the features it records: the eight flags cover
      all eight bits. */
  lemma MaskDeterminedByFeatures(a: bv8, b: bv8)
    requires forall g :: Has(a, g) <==> Has(b, g)
    ensures a == b
  {
    assert Has(a, FeatureChange) <==> Has(b, FeatureChange);
    assert Has(a, FeatureChangeTicked) <==> Has(b, FeatureChangeTicked);
    assert Has(a, FeatureStab) <==> Has(b, FeatureStab);
    assert Has(a, FeatureDrag) <==> Has(b, FeatureDrag);
    assert Has(a, FeatureMelt) <==> Has(b, FeatureMelt);
    assert Has(a, FeatureLightningBlock) <==> Has(b, FeatureLightningBlock);
    assert Has(a, FeatureInteractivePreon) <==> Has(b, FeatureInteractivePreon);
    assert Has(a, FeatureInteractiveBlast) <==> Has(b, FeatureInteractiveBlast);
  }

  /** Declaring `f` adds exactly `f`: a feature is recorded afterwards iff it
      was recorded before or it is `f` (and `f` is a real feature). */
  lemma DeclareHas(mask: bv8, f: HandledFeature, g: HandledFeature)
    ensures Has(Declare(mask, f), g) <==> Has(mask, g) || (g == f && f != FeatureNone)
  {
  }

  /** Declaring never clears a bit that was already set. */
  lemma DeclareKeepsBits(mask: bv8, f: HandledFeature)
    ensures Declare(mask, f) & mask == mask
  {
  }

  /** Declaring the same feature twice is the same as declaring it once. */
  lemma DeclareIdempotent(mask: bv8, f: HandledFeature)
    ensures Declare(Declare(mask, f), f) == Declare(mask, f)
  {
  }

  /** The order in which two features are declared does not matter. */
  lemma DeclareCommutes(mask: bv8, f: HandledFeature, g: HandledFeature)
    ensures Declare(Declare(mask, f), g) == Declare(Declare(mask, g), f)
  {
  }

  /** The registry object; `handled` is the static `handled_features_`. */
  class Registry {
    var handled: bv8

    /** The static initialiser sets the mask to `HANDLED_FEATURE_NONE`. */
    constructor ()
      ensures handled == Bit(FeatureNone)
      ensures forall g :: !Has(handled, g)
    {
      handled := 0;
    }

    /** `HandleFeature`: OR `f` into the mask. */
    method HandleFeature(f: HandledFeature)
      modifies this
      ensures handled == Declare(old(handled), f)
      ensures handled & old(handled) == old(handled)
      ensures forall g :: Has(handled, g) <==> Has(old(handled), g) || (g == f && f != FeatureNone)
    {
      handled := handled | Bit(f);
      forall g ensures Has(handled, g) <==> Has(old(handled), g) || (g == f && f != FeatureNone) {
        DeclareHas(old(handled), f, g);
      }
    }

    /** `GetHandledTypes`: the accumulated mask. */
    function GetHandledTypes(): (mask: bv8)
      reads this
      ensures forall g :: Has(mask, g) <==> Has(handled, g)
    {
      handled
    }

    /** `ResetHandledTypes`: back to `HANDLED_FEATURE_NONE`, forgetting every feature. */
    method ResetHandledTypes()
      modifies this
      ensures handled == Bit(FeatureNone)
      ensures forall g :: !Has(handled, g)
    {
      handled := 0;
    }
  }
}
