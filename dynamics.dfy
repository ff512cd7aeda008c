/**
 * The Python dynamics engine: glyphs with energy, an activation counter and
 * an update time kept beside a free-form metadata dictionary, and the three
 * rules that evolve them: activation at a threshold, merge precedence by
 * energy, and exponential decay. Python floats are modelled as reals and
 * the hexadecimal SHA-256 digest is passed in as a function.
 */
module Dynamics {
  import opened CLib
  import MergeSpec

  /** The metadata values the engine reads and writes. */
  datatype MetaValue = Float(x: real) | Int(n: int) | Str(s: string) | StrList(items: seq<string>)

  type Metadata = map<string, MetaValue>

  const EnergyKey: string := "energy"
  const CountKey: string := "activation_count"
  const TimeKey: string := "last_update_time"
  const MergedFromKey: string := "merged_from"

  /** The three keys the glyph mirrors in its own fields hold numbers of the right kind. */
  predicate Typed(md: Metadata) {
    (EnergyKey in md ==> md[EnergyKey].Float?) &&
    (CountKey in md ==> md[CountKey].Int?) &&
    (TimeKey in md ==> md[TimeKey].Int?)
  }

  /** metadata.get("energy", 0.0) and its two companions. */
  function EnergyOf(md: Metadata): real
    requires Typed(md)
  {
    if EnergyKey in md then md[EnergyKey].x else 0.0
  }

  function CountOf(md: Metadata): int
    requires Typed(md)
  {
    if CountKey in md then md[CountKey].n else 0
  }

  function TimeOf(md: Metadata): int
    requires Typed(md)
  {
    if TimeKey in md then md[TimeKey].n else 0
  }

  /** A glyph's attributes at one moment. */
  datatype GlyphState = GlyphState(
    id: string,
    content: string,
    metadata: Metadata,
    energy: real,
    activationCount: int,
    lastUpdateTime: int)

  /** Glyph(id, content, metadata): a missing or empty dictionary becomes {}, and the three fields are read from it. */
  function Construct(id: string, content: string, metadata: Option<Metadata>): GlyphState
    requires metadata.Some? ==> Typed(metadata.value)
  {
    var md := if metadata.Some? then metadata.value else map[];
    GlyphState(id, content, md, EnergyOf(md), CountOf(md), TimeOf(md))
  }

  /** The dictionary form: id, content and an optional metadata dictionary. */
  datatype GlyphDict = GlyphDict(id: string, content: string, metadata: Option<Metadata>)

  /** to_dict's metadata: the three fields' current values, then every other key of the metadata. */
  function Exported(g: GlyphState): Metadata {
    (g.metadata - {EnergyKey, CountKey, TimeKey}) + map[EnergyKey := Float(g.energy), CountKey := Int(g.activationCount), TimeKey := Int(g.lastUpdateTime)]
  }

  function DictOf(g: GlyphState): GlyphDict {
    GlyphDict(g.id, g.content, Some(Exported(g)))
  }

  /** from_dict. */
  function StateFromDict(d: GlyphDict): GlyphState
    requires d.metadata.Some? ==> Typed(d.metadata.value)
  {
    Construct(d.id, d.content, d.metadata)
  }

  /**
   * The dictionary round trip keeps every attribute; the new glyph's
   * metadata is the exported one, and exporting it again gives the same
   * dictionary.
   */
  lemma RoundTrip(g: GlyphState)
    ensures Typed(Exported(g))
    ensures var h := StateFromDict(DictOf(g));
      h.id == g.id && h.content == g.content && h.energy == g.energy &&
      h.activationCount == g.activationCount && h.lastUpdateTime == g.lastUpdateTime &&
      h.metadata == Exported(g) && DictOf(h) == DictOf(g)
  {
    var h := StateFromDict(DictOf(g));
    assert Exported(h) == Exported(g);
  }

  /** Metadata keys other than the three fields pass through to_dict unchanged. */
  lemma ExportKeepsOthers(g: GlyphState, k: string)
    requires k in g.metadata && k != EnergyKey && k != CountKey && k != TimeKey
    ensures k in Exported(g) && Exported(g)[k] == g.metadata[k]
  {
  }

  // ---------------------------------------------------------------------
  // Rule 3: decay

  /** The decay rate the constructor keeps: max(0.0, min(1.0, rate)). */
  function ClampRate(rate: real): (r: real)
    ensures 0.0 <= r <= 1.0
    ensures 0.0 <= rate <= 1.0 ==> r == rate
    ensures rate < 0.0 ==> r == 0.0
    ensures rate > 1.0 ==> r == 1.0
  {
    if rate > 1.0 then 1.0 else if rate < 0.0 then 0.0 else rate
  }

  lemma MulBounds(x: real, y: real)
    requires 0.0 <= x && 0.0 <= y <= 1.0
    ensures 0.0 <= x * y <= x
  {
  }

  lemma MulNonZero(x: real, y: real)
    requires x != 0.0 && y != 0.0
    ensures x * y != 0.0
  {
  }

  lemma ScaleProduct(b: real, p: real, q: real, r: real)
    requires r == p * q
    ensures b * r == (b * p) * q
  {
  }

  /** `b ** n` for a whole exponent. */
  function Pow(b: real, n: nat): real {
    if n == 0 then 1.0 else b * Pow(b, n - 1)
  }

  lemma {:induction false} PowNonZero(b: real, n: nat)
    requires b != 0.0
    ensures Pow(b, n) != 0.0
  {
    if n > 0 {
      PowNonZero(b, n - 1);
      MulNonZero(b, Pow(b, n - 1));
    }
  }

  /** A power of a number in [0, 1] stays in [0, 1]. */
  lemma {:induction false} PowUnit(b: real, n: nat)
    requires 0.0 <= b <= 1.0
    ensures 0.0 <= Pow(b, n) <= 1.0
  {
    if n > 0 {
      PowUnit(b, n - 1);
      MulBounds(Pow(b, n - 1), b);
    }
  }

  lemma {:induction false} PowAdd(b: real, m: nat, n: nat)
    ensures Pow(b, m + n) == Pow(b, m) * Pow(b, n)
  {
    if m > 0 {
      PowAdd(b, m - 1, n);
      ScaleProduct(b, Pow(b, m - 1), Pow(b, n), Pow(b, m - 1 + n));
    }
  }

  /** 1.0 / x; zero has none, and Python raises for it. */
  function Reciprocal(x: real): real
    requires x != 0.0
  {
    1.0 / x
  }

  /** (1.0 - rate) ** dt; None where Python raises ZeroDivisionError (0.0 to a negative power). */
  function DecayFactor(rate: real, dt: int): Option<real> {
    var b := 1.0 - rate;
    if dt >= 0 then Some(Pow(b, dt))
    else if b == 0.0 then None
    else PowNonZero(b, -dt); Some(Reciprocal(Pow(b, -dt)))
  }

  /** apply_decay: energy times the factor, and the update time moves on by dt. */
  function Decay(g: GlyphState, rate: real, dt: int): Option<GlyphState> {
    match DecayFactor(rate, dt)
    case None => None
    case Some(f) => Some(g.(energy := g.energy * f, lastUpdateTime := g.lastUpdateTime + dt))
  }

  /** Decay fails only for a rate of 1 and a negative time step. */
  lemma DecayFails(g: GlyphState, rate: real, dt: int)
    ensures Decay(g, rate, dt).None? <==> rate == 1.0 && dt < 0
  {
  }

  /** With a clamped rate and a forward step, non-negative energy decays within [0, energy]; a zero step changes nothing. */
  lemma DecayShrinks(g: GlyphState, rate: real, dt: int)
    requires 0.0 <= rate <= 1.0 && dt >= 0 && g.energy >= 0.0
    ensures Decay(g, rate, dt).Some?
    ensures 0.0 <= Decay(g, rate, dt).value.energy <= g.energy
    ensures dt == 0 ==> Decay(g, rate, dt) == Some(g)
  {
    PowUnit(1.0 - rate, dt);
    MulBounds(g.energy, Pow(1.0 - rate, dt));
  }

  /** Forward decay factors multiply. */
  lemma FactorAdd(rate: real, m: nat, n: nat)
    ensures DecayFactor(rate, m).Some? && DecayFactor(rate, n).Some? && DecayFactor(rate, m + n).Some?
    ensures DecayFactor(rate, m + n).value == DecayFactor(rate, m).value * DecayFactor(rate, n).value
  {
    PowAdd(1.0 - rate, m, n);
  }

  /** Scaling by two factors in turn is scaling by their product. */
  lemma ScaleTwice(g: GlyphState, f1: real, f2: real, f: real, m: int, n: int)
    requires f == f1 * f2
    ensures g.(energy := g.energy * f1, lastUpdateTime := g.lastUpdateTime + m).(energy := g.energy * f1 * f2, lastUpdateTime := g.lastUpdateTime + m + n)
         == g.(energy := g.energy * f, lastUpdateTime := g.lastUpdateTime + (m + n))
  {
    ScaleProduct(g.energy, f1, f2, f);
  }

  /** Decaying for m and then for n time units is decaying for m + n. */
  lemma DecayCompose(g: GlyphState, rate: real, m: nat, n: nat)
    ensures Decay(g, rate, m).Some? && Decay(Decay(g, rate, m).value, rate, n).Some?
    ensures Decay(Decay(g, rate, m).value, rate, n) == Decay(g, rate, m + n)
  {
    FactorAdd(rate, m, n);
    var fm, fn, f := DecayFactor(rate, m).value, DecayFactor(rate, n).value, DecayFactor(rate, m + n).value;
    var d := Decay(g, rate, m).value;
    assert d == g.(energy := g.energy * fm, lastUpdateTime := g.lastUpdateTime + m);
    assert Decay(d, rate, n).value == d.(energy := d.energy * fn, lastUpdateTime := d.lastUpdateTime + n);
    assert Decay(g, rate, m + n).value == g.(energy := g.energy * f, lastUpdateTime := g.lastUpdateTime + (m + n));
    ScaleTwice(g, fm, fn, f, m, n);
    assert Decay(d, rate, n).value == Decay(g, rate, m + n).value;
    assert Decay(d, rate, n) == Decay(g, rate, m + n);
  }

  // ---------------------------------------------------------------------
  // Rule 1: activation

  /** apply_activation_threshold: at or above the threshold the counter goes up by one. */
  function Activate(g: GlyphState, threshold: real): (GlyphState, bool) {
    if g.energy >= threshold then (g.(activationCount := g.activationCount + 1), true) else (g, false)
  }

  lemma ActivateSpec(g: GlyphState, threshold: real)
    ensures var (h, activated) := Activate(g, threshold);
      (activated <==> g.energy >= threshold) &&
      h.activationCount == g.activationCount + (if activated then 1 else 0) &&
      h == g.(activationCount := h.activationCount)
  {
  }

  /** The record step returns about itself. */
  datatype StepInfo = StepInfo(
    initialEnergy: real,
    timeDelta: int,
    energyAfterDecay: real,
    activated: bool,
    finalEnergy: real,
    activationCount: int)

  /** step: decay, then the activation check. */
  function StepOf(g: GlyphState, threshold: real, rate: real, dt: int): Option<(GlyphState, StepInfo)> {
    match Decay(g, rate, dt)
    case None => None
    case Some(d) =>
      var (a, activated) := Activate(d, threshold);
      Some((a, StepInfo(g.energy, dt, d.energy, activated, a.energy, a.activationCount)))
  }

  /**
   * A step fails exactly when its decay does; otherwise activation leaves
   * the decayed energy alone and is judged on it, and the counter moves by
   * at most one.
   */
  lemma StepSpec(g: GlyphState, threshold: real, rate: real, dt: int)
    ensures StepOf(g, threshold, rate, dt).None? <==> Decay(g, rate, dt).None?
    ensures StepOf(g, threshold, rate, dt).Some? ==>
      var (h, info) := StepOf(g, threshold, rate, dt).value;
      info.initialEnergy == g.energy && info.timeDelta == dt &&
      info.energyAfterDecay == Decay(g, rate, dt).value.energy &&
      info.finalEnergy == info.energyAfterDecay == h.energy &&
      (info.activated <==> info.energyAfterDecay >= threshold) &&
      info.activationCount == h.activationCount == g.activationCount + (if info.activated then 1 else 0) &&
      h.lastUpdateTime == g.lastUpdateTime + dt
  {
  }

  // ---------------------------------------------------------------------
  // Rule 2: merge precedence

  /** apply_merge_precedence. */
  function MergeStates(g1: GlyphState, g2: GlyphState, sha256: string -> string): GlyphState {
    var (primary, secondary) := if g1.energy >= g2.energy then (g1, g2) else (g2, g1);
    var content := primary.content + " + " + secondary.content;
    Construct(sha256(content), content, Some(map[
      EnergyKey := Float(primary.energy + secondary.energy),
      CountKey := Int(if primary.activationCount >= secondary.activationCount then primary.activationCount else secondary.activationCount),
      TimeKey := Int(if primary.lastUpdateTime >= secondary.lastUpdateTime then primary.lastUpdateTime else secondary.lastUpdateTime),
      MergedFromKey := StrList([primary.id, secondary.id])]))
  }

  /** The glyph as the merge rule sees it. */
  function Core(g: GlyphState): MergeSpec.Glyph<string, char> {
    MergeSpec.Glyph(g.id, g.content, g.energy, g.activationCount, g.lastUpdateTime)
  }

  /** The merge follows the rule, with the parents recorded in merged_from, leader first. */
  lemma MergeRefines(g1: GlyphState, g2: GlyphState, sha256: string -> string)
    ensures var m := MergeStates(g1, g2, sha256);
      MergedFromKey in m.metadata && m.metadata[MergedFromKey].StrList? && |m.metadata[MergedFromKey].items| == 2 &&
      MergeSpec.Merge(Core(g1), Core(g2), " + ", sha256) ==
        MergeSpec.Merged(Core(m), m.metadata[MergedFromKey].items[0], m.metadata[MergedFromKey].items[1])
  {
  }

  /** A glyph of the Python engine. */
  class Glyph {
    var id: string
    var content: string
    var metadata: Metadata
    var energy: real
    var activationCount: int
    var lastUpdateTime: int

    function State(): GlyphState
      reads this
    {
      GlyphState(id, content, metadata, energy, activationCount, lastUpdateTime)
    }

    constructor(id: string, content: string, metadata: Option<Metadata>)
      requires metadata.Some? ==> Typed(metadata.value)
      ensures State() == Construct(id, content, metadata)
    {
      var md := if metadata.Some? then metadata.value else map[];
      this.id := id;
      this.content := content;
      this.metadata := md;
      this.energy := EnergyOf(md);
      this.activationCount := CountOf(md);
      this.lastUpdateTime := TimeOf(md);
    }

    method ToDict() returns (d: GlyphDict)
      ensures d == DictOf(State())
    {
      d := GlyphDict(id, content, Some((metadata - {EnergyKey, CountKey, TimeKey}) +
        map[EnergyKey := Float(energy), CountKey := Int(activationCount), TimeKey := Int(lastUpdateTime)]));
    }

    static method FromDict(d: GlyphDict) returns (g: Glyph)
      requires d.metadata.Some? ==> Typed(d.metadata.value)
      ensures fresh(g) && g.State() == StateFromDict(d)
    {
      g := new Glyph(d.id, d.content, d.metadata);
    }
  }

  /** The engine: a threshold and a decay rate clamped to [0, 1]. */
  class Engine {
    const activationThreshold: real
    const decayRate: real

    constructor(activationThreshold: real, decayRate: real)
      ensures this.activationThreshold == activationThreshold && this.decayRate == ClampRate(decayRate)
    {
      this.activationThreshold := activationThreshold;
      this.decayRate := if decayRate > 1.0 then 1.0 else if decayRate < 0.0 then 0.0 else decayRate;
    }

    method ApplyActivationThreshold(glyph: Glyph) returns (r: Glyph, activated: bool)
      modifies glyph
      ensures r == glyph && (glyph.State(), activated) == Activate(old(glyph.State()), activationThreshold)
    {
      activated := false;
      if glyph.energy >= activationThreshold {
        glyph.activationCount := glyph.activationCount + 1;
        activated := true;
      }
      r := glyph;
    }

    method ApplyMergePrecedence(glyph1: Glyph, glyph2: Glyph, sha256: string -> string) returns (merged: Glyph)
      ensures fresh(merged) && merged.State() == MergeStates(glyph1.State(), glyph2.State(), sha256)
    {
      var primary, secondary := glyph1, glyph2;
      if glyph1.energy < glyph2.energy {
        primary, secondary := glyph2, glyph1;
      }
      var content := primary.content + " + " + secondary.content;
      var count := if primary.activationCount >= secondary.activationCount then primary.activationCount else secondary.activationCount;
      var time := if primary.lastUpdateTime >= secondary.lastUpdateTime then primary.lastUpdateTime else secondary.lastUpdateTime;
      merged := new Glyph(sha256(content), content, Some(map[
        EnergyKey := Float(primary.energy + secondary.energy),
        CountKey := Int(count),
        TimeKey := Int(time),
        MergedFromKey := StrList([primary.id, secondary.id])]));
    }

    /** apply_decay; `ok` is false where Python raises, and then the glyph is untouched. */
    method ApplyDecay(glyph: Glyph, dt: int) returns (r: Glyph, ok: bool)
      modifies glyph
      ensures r == glyph
      ensures ok <==> Decay(old(glyph.State()), decayRate, dt).Some?
      ensures ok ==> glyph.State() == Decay(old(glyph.State()), decayRate, dt).value
      ensures !ok ==> glyph.State() == old(glyph.State())
    {
      r := glyph;
      var factor := DecayFactor(decayRate, dt);
      if factor.None? {
        return r, false;
      }
      glyph.energy := glyph.energy * factor.value;
      glyph.lastUpdateTime := glyph.lastUpdateTime + dt;
      ok := true;
    }

    /** step. */
    method Step(glyph: Glyph, dt: int) returns (r: Glyph, info: StepInfo, ok: bool)
      modifies glyph
      ensures r == glyph
      ensures ok <==> StepOf(old(glyph.State()), activationThreshold, decayRate, dt).Some?
      ensures ok ==> (glyph.State(), info) == StepOf(old(glyph.State()), activationThreshold, decayRate, dt).value
      ensures !ok ==> glyph.State() == old(glyph.State())
    {
      var initial := glyph.energy;
      var decayed;
      decayed, ok := ApplyDecay(glyph, dt);
      if !ok {
        return glyph, StepInfo(initial, dt, initial, false, initial, glyph.activationCount), false;
      }
      var afterDecay := glyph.energy;
      var activated;
      r, activated := ApplyActivationThreshold(glyph);
      info := StepInfo(initial, dt, afterDecay, activated, glyph.energy, glyph.activationCount);
    }
  }
}
