/** The detector's logic as functions of its inputs: which record `Find`
    picks from a queue, what `Detect` reports and remembers, which features
    constructing a detector declares, and what happens over many ticks. */
module Detection {
  import opened Effects
  import opened HandledFeatures

  /** The feature a detector of `kind` declares when it is constructed:
      only stab, interactive preon and interactive blast declare one. */
  function DeclaredFeature(kind: EffectType): (f: HandledFeature)
    ensures f == FeatureStab <==> kind == Stab
    ensures f == FeatureInteractivePreon <==> kind == InteractivePreon
    ensures f == FeatureInteractiveBlast <==> kind == InteractiveBlast
    ensures f == FeatureNone <==> !(kind == Stab || kind == InteractivePreon || kind == InteractiveBlast)
  {
    match kind
    case Stab => FeatureStab
    case InteractivePreon => FeatureInteractivePreon
    case InteractiveBlast => FeatureInteractiveBlast
    case _ => FeatureNone
  }

  /** `match_stab`: the clash detector also accepts stab records when the
      current style does not handle stab and the blade is the primary one. */
  predicate StabFallback(kind: EffectType, styleHandlesStab: bool, isPrimary: bool) {
    kind == Clash && !styleHandlesStab && isPrimary
  }

  /** Whether record `e` is one a detector of `kind` looks for. */
  predicate Matches(kind: EffectType, matchStab: bool, e: BladeEffect) {
    e.kind == kind || (matchStab && e.kind == Stab)
  }

  /** The scan of `Find` from position `i` on: the index of the first
      matching record at or after `i`, or `None` when there is none. */
  function FindFrom(effects: seq<BladeEffect>, kind: EffectType, matchStab: bool, i: nat): (r: Option<nat>)
    requires i <= |effects|
    decreases |effects| - i
    ensures r.Some? ==> i <= r.value < |effects| && Matches(kind, matchStab, effects[r.value])
    ensures r.Some? ==> forall j :: i <= j < r.value ==> !Matches(kind, matchStab, effects[j])
    ensures r.None? <==> forall j :: i <= j < |effects| ==> !Matches(kind, matchStab, effects[j])
  {
    if i == |effects| then None
    else if Matches(kind, matchStab, effects[i]) then Some(i)
    else FindFrom(effects, kind, matchStab, i + 1)
  }

  /** `Find` over the whole queue. */
  function FindMatch(effects: seq<BladeEffect>, kind: EffectType, matchStab: bool): Option<nat> {
    FindFrom(effects, kind, matchStab, 0)
  }

  /** The record `Find` points at, if any: what `DetectScoped` publishes. */
  function Found(effects: seq<BladeEffect>, kind: EffectType, matchStab: bool): Option<BladeEffect> {
    match FindMatch(effects, kind, matchStab)
    case None => None
    case Some(i) => Some(effects[i])
  }

  /** Any index the first-match characterisation admits is the one `Find` returns. */
  lemma FindMatchUnique(effects: seq<BladeEffect>, kind: EffectType, matchStab: bool, i: nat)
    requires i < |effects| && Matches(kind, matchStab, effects[i])
    requires forall j :: 0 <= j < i ==> !Matches(kind, matchStab, effects[j])
    ensures FindMatch(effects, kind, matchStab) == Some(i)
  {
  }

  /** A clash detector accepts a stab record iff the fallback is on; a
      detector of any other kind never accepts a record of another kind. */
  lemma StabMatchesOnlyUnderFallback(kind: EffectType, styleHandlesStab: bool, isPrimary: bool, e: BladeEffect)
    requires e.kind != kind
    ensures Matches(kind, StabFallback(kind, styleHandlesStab, isPrimary), e)
        <==> (kind == Clash && e.kind == Stab && !styleHandlesStab && isPrimary)
  {
  }

  /** The fallback scenario: a queue holding stab records but no clash record
      is matched by a clash detector iff the style does not handle stab and
      the blade is primary; the match is then the first stab record. */
  lemma ClashFindsUnhandledStab(effects: seq<BladeEffect>, styleHandlesStab: bool, isPrimary: bool, i: nat)
    requires i < |effects| && effects[i].kind == Stab
    requires forall j :: 0 <= j < i ==> effects[j].kind != Stab
    requires forall j :: 0 <= j < |effects| ==> effects[j].kind != Clash
    ensures var r := FindMatch(effects, Clash, StabFallback(Clash, styleHandlesStab, isPrimary));
      (r.Some? <==> !styleHandlesStab && isPrimary) && (r.Some? ==> r == Some(i))
  {
  }

  /** What one `Detect` call yields: the index it reports (if any) and the new
      value of `last_detected_`. */
  datatype Outcome = Outcome(reported: Option<nat>, last: uint32)

  /** `Detect`: report `Find`'s match unless its timestamp equals `last`,
      and remember the timestamp of what was reported. */
  function DetectOn(effects: seq<BladeEffect>, kind: EffectType, matchStab: bool, last: uint32): Outcome {
    match FindMatch(effects, kind, matchStab)
    case None => Outcome(None, last)
    case Some(i) =>
      if effects[i].startMicros == last then Outcome(None, last)
      else Outcome(Some(i), effects[i].startMicros)
  }

  /** `Detect` reports exactly when `Find` has a match whose timestamp differs
      from the remembered one; it then reports that match and remembers its
      timestamp, and otherwise leaves the remembered timestamp alone. */
  lemma DetectReportsNewOccurrence(effects: seq<BladeEffect>, kind: EffectType, matchStab: bool, last: uint32)
    ensures var o := DetectOn(effects, kind, matchStab, last);
      var f := Found(effects, kind, matchStab);
      && (o.reported.Some? <==> f.Some? && f.value.startMicros != last)
      && (o.reported.Some? ==> o.reported == FindMatch(effects, kind, matchStab) && o.last == f.value.startMicros)
      && (o.reported.None? ==> o.last == last)
  {
  }

  /** An empty queue yields nothing, whatever the detector remembers. */
  lemma EmptyQueueDetectsNothing(kind: EffectType, matchStab: bool, last: uint32)
    ensures FindMatch([], kind, matchStab) == None
    ensures DetectOn([], kind, matchStab, last) == Outcome(None, last)
  {
  }

  /** Two `Detect` calls on the same queue: the second reports nothing and
      changes nothing. */
  lemma DetectTwiceReportsOnce(effects: seq<BladeEffect>, kind: EffectType, matchStab: bool, last: uint32)
    ensures var o := DetectOn(effects, kind, matchStab, last);
      DetectOn(effects, kind, matchStab, o.last) == Outcome(None, o.last)
  {
  }

  /** `last_detected_` starts with whatever value the object happens to hold;
      when that equals the timestamp of the first match, the very first
      occurrence is not reported. */
  lemma FirstMatchCanBeSuppressed(effects: seq<BladeEffect>, kind: EffectType, matchStab: bool)
    requires FindMatch(effects, kind, matchStab).Some?
    ensures DetectOn(effects, kind, matchStab, Found(effects, kind, matchStab).value.startMicros).reported == None
  {
  }

  /** Example: a primary blade whose style does not handle stab
      queues one stab at time 100; a clash detector finds it, reports it on
      the first tick (unless it already remembers 100) and not on the next. */
  lemma StabTreatedAsClashScenario(loc: EffectLocation, len: real, wav: int, last: uint32)
    requires last != 100
    ensures var q := [BladeEffect(Stab, 100, loc, len, wav)];
      var ms := StabFallback(Clash, false, true);
      && FindMatch(q, Clash, ms) == Some(0)
      && DetectOn(q, Clash, ms, last) == Outcome(Some(0), 100)
      && DetectOn(q, Clash, ms, 100) == Outcome(None, 100)
      && FindMatch(q, Clash, StabFallback(Clash, false, false)) == None
      && FindMatch(q, Clash, StabFallback(Clash, true, true)) == None
  {
  }

  /** The timestamps a detector reports, in order, when it is run once per
      tick over the queues `ticks`, starting from remembered value `last`. */
  function ReportedStamps(ticks: seq<seq<BladeEffect>>, kind: EffectType, matchStab: bool, last: uint32): seq<uint32>
    decreases |ticks|
  {
    if ticks == [] then []
    else
      var o := DetectOn(ticks[0], kind, matchStab, last);
      var rest := ReportedStamps(ticks[1..], kind, matchStab, o.last);
      if o.reported.Some? then [o.last] + rest else rest
  }

  /** The value of `last_detected_` after running over `ticks`. */
  function LastAfter(ticks: seq<seq<BladeEffect>>, kind: EffectType, matchStab: bool, last: uint32): uint32
    decreases |ticks|
  {
    if ticks == [] then last
    else LastAfter(ticks[1..], kind, matchStab, DetectOn(ticks[0], kind, matchStab, last).last)
  }

  /** Running from tick `i` is one `Detect` on `ticks[i]` followed by the run
      from tick `i + 1`. */
  lemma RunStep(ticks: seq<seq<BladeEffect>>, i: nat, kind: EffectType, matchStab: bool, last: uint32)
    requires i < |ticks|
    ensures var o := DetectOn(ticks[i], kind, matchStab, last);
      && ReportedStamps(ticks[i..], kind, matchStab, last)
         == (if o.reported.Some? then [o.last] else []) + ReportedStamps(ticks[i + 1..], kind, matchStab, o.last)
      && LastAfter(ticks[i..], kind, matchStab, last) == LastAfter(ticks[i + 1..], kind, matchStab, o.last)
  {
    assert ticks[i..][0] == ticks[i] && ticks[i..][1..] == ticks[i + 1..];
  }

  /** Over any run of ticks, no timestamp is reported twice in a row: the first
      report differs from the starting value and each report differs from the
      one before it. The remembered value afterwards is the last report. */
  lemma {:induction false} ReportedStampsNeverRepeat(ticks: seq<seq<BladeEffect>>, kind: EffectType, matchStab: bool, last: uint32)
    ensures var s := ReportedStamps(ticks, kind, matchStab, last);
      && (|s| > 0 ==> s[0] != last)
      && (forall i :: 0 <= i < |s| - 1 ==> s[i] != s[i + 1])
      && LastAfter(ticks, kind, matchStab, last) == (if |s| == 0 then last else s[|s| - 1])
    decreases |ticks|
  {
    if ticks != [] {
      var o := DetectOn(ticks[0], kind, matchStab, last);
      ReportedStampsNeverRepeat(ticks[1..], kind, matchStab, o.last);
      var rest := ReportedStamps(ticks[1..], kind, matchStab, o.last);
      if o.reported.Some? {
        var s := [o.last] + rest;
        assert forall i :: 1 <= i < |s| ==> s[i] == rest[i - 1];
      }
    }
  }

  /** An occurrence that stays first in the queue for any number of ticks is
      reported at most once: exactly once, on the first tick, when its
      timestamp differs from the remembered one, and never otherwise. */
  lemma {:induction false} LingeringOccurrenceReportedOnce(ticks: seq<seq<BladeEffect>>, kind: EffectType, matchStab: bool, last: uint32, t: uint32)
    requires forall k :: 0 <= k < |ticks| ==>
      Found(ticks[k], kind, matchStab).Some? && Found(ticks[k], kind, matchStab).value.startMicros == t
    ensures ReportedStamps(ticks, kind, matchStab, last) == if ticks != [] && last != t then [t] else []
    ensures ticks != [] ==> LastAfter(ticks, kind, matchStab, last) == t
    ensures ticks != [] && last != t ==> DetectOn(ticks[0], kind, matchStab, last).reported.Some?
    decreases |ticks|
  {
    if ticks != [] {
      var o := DetectOn(ticks[0], kind, matchStab, last);
      assert o.last == t;
      LingeringOccurrenceReportedOnce(ticks[1..], kind, matchStab, t, t);
    }
  }

  /** The key holds one timestamp only, so an occurrence that a newer match
      hides for a tick is reported again when it is back in front: clash A
      at 1 stays queued on all three ticks, B at 2 goes ahead of it on the
      second, and A is reported on the first and on the third tick. */
  lemma ShadowedOccurrenceReportedAgain(loc: EffectLocation, len: real, wav: int)
    ensures var a := BladeEffect(Clash, 1, loc, len, wav);
      var b := BladeEffect(Clash, 2, loc, len, wav);
      ReportedStamps([[a], [b, a], [a]], Clash, false, 0) == [1, 2, 1]
  {
    var a := BladeEffect(Clash, 1, loc, len, wav);
    var b := BladeEffect(Clash, 2, loc, len, wav);
    var ticks := [[a], [b, a], [a]];
    assert ticks[1..] == [[b, a], [a]];
    assert ticks[1..][1..] == [[a]];
    assert ReportedStamps([[a]], Clash, false, 2) == [1];
    assert ReportedStamps([[b, a], [a]], Clash, false, 1) == [2, 1];
  }

  /** The registry after constructing detectors of `kinds` in order, starting
      from `mask`. */
  function Accumulated(kinds: seq<EffectType>, mask: bv8): bv8
    decreases |kinds|
  {
    if kinds == [] then mask
    else Accumulated(kinds[1..], Declare(mask, DeclaredFeature(kinds[0])))
  }

  /** After constructing detectors of `kinds`, the registry records a feature
      iff it recorded it before or one of the detectors declares it. */
  lemma {:induction false} AccumulatedHas(kinds: seq<EffectType>, mask: bv8, g: HandledFeature)
    ensures Has(Accumulated(kinds, mask), g)
        <==> Has(mask, g) || (g != FeatureNone && exists i :: 0 <= i < |kinds| && DeclaredFeature(kinds[i]) == g)
    decreases |kinds|
  {
    if kinds != [] {
      var m' := Declare(mask, DeclaredFeature(kinds[0]));
      AccumulatedHas(kinds[1..], m', g);
      DeclareHas(mask, DeclaredFeature(kinds[0]), g);
      if exists i :: 0 <= i < |kinds| && DeclaredFeature(kinds[i]) == g {
        var i :| 0 <= i < |kinds| && DeclaredFeature(kinds[i]) == g;
        if i > 0 {
          assert DeclaredFeature(kinds[1..][i - 1]) == g;
        }
      }
      if exists i :: 0 <= i < |kinds[1..]| && DeclaredFeature(kinds[1..][i]) == g {
        var i :| 0 <= i < |kinds[1..]| && DeclaredFeature(kinds[1..][i]) == g;
        assert DeclaredFeature(kinds[i + 1]) == g;
      }
    }
  }

  /** From a reset registry, constructing detectors of `kinds` records stab,
      interactive preon and interactive blast exactly when a detector of
      that kind is among them, and no other feature. */
  lemma AccumulatedFromReset(kinds: seq<EffectType>)
    ensures Has(Accumulated(kinds, 0), FeatureStab) <==> Stab in kinds
    ensures Has(Accumulated(kinds, 0), FeatureInteractivePreon) <==> InteractivePreon in kinds
    ensures Has(Accumulated(kinds, 0), FeatureInteractiveBlast) <==> InteractiveBlast in kinds
    ensures forall g :: g !in {FeatureStab, FeatureInteractivePreon, FeatureInteractiveBlast} ==>
      !Has(Accumulated(kinds, 0), g)
  {
    forall g ensures Has(Accumulated(kinds, 0), g)
        <==> (g != FeatureNone && exists i :: 0 <= i < |kinds| && DeclaredFeature(kinds[i]) == g) {
      AccumulatedHas(kinds, 0, g);
    }
    if Stab in kinds {
      var i :| 0 <= i < |kinds| && kinds[i] == Stab;
      assert DeclaredFeature(kinds[i]) == FeatureStab;
    }
    if InteractivePreon in kinds {
      var i :| 0 <= i < |kinds| && kinds[i] == InteractivePreon;
      assert DeclaredFeature(kinds[i]) == FeatureInteractivePreon;
    }
    if InteractiveBlast in kinds {
      var i :| 0 <= i < |kinds| && kinds[i] == InteractiveBlast;
      assert DeclaredFeature(kinds[i]) == FeatureInteractiveBlast;
    }
  }
}
