/**
 * Values of the field-state substrate: the cell record, the parity helpers
 * (clamp and phase wrap), the rolling checksum and the per-cell effect of each
 * store operation. C doubles are modelled as reals.
 */
module SubstrateFields {
  import opened Grid
  import opened CLib

  const Pi: real := 3.14159265358979323846
  /** Phases live in the half-open range [0, PhaseMax). */
  const PhaseMax: real := 2.0 * Pi
  const CoherenceMax: real := 1000.0
  const MagnitudeMax: real := 1000.0
  const DecayRateMax: real := 1.0
  const WaveSpeed: real := 1.0
  const WaveDamping: real := 0.95
  const FerrofluidViscosity: real := 0.1
  const MaxSuperpositionStates: nat := 8
  /** Magnitudes below this floor are raised to it by a tick. */
  const MagnitudeFloor: real := 0.01

  const U32: nat := 0x1_0000_0000
  const U64: nat := 0x1_0000_0000_0000_0000

  /** One cell; lastUpdate is a uint32 and flags a uint8. */
  datatype Cell = Cell(
    magnitude: real,
    phase: real,
    coherence: real,
    decayRate: real,
    lastUpdate: nat,
    flags: bv8)

  /** The all-zero cell of a store that was never initialised. */
  const ZeroCell := Cell(0.0, 0.0, 0.0, 0.0, 0, 0)
  /** The neutral cell substrate_init writes everywhere. */
  const NeutralCell := Cell(100.0, 0.0, 500.0, 0.01, 0, 0)

  /** Every field inside the range the parity checks enforce. */
  predicate InRange(c: Cell) {
    0.0 <= c.magnitude <= MagnitudeMax &&
    0.0 <= c.phase < PhaseMax &&
    0.0 <= c.coherence <= CoherenceMax &&
    0.0 <= c.decayRate <= DecayRateMax
  }

  /** clamp_double. */
  function Clamp(value: real, min: real, max: real): (r: real)
    ensures min <= max ==> min <= r <= max
    ensures min <= value <= max ==> r == value
    ensures value < min ==> r == min
    ensures value > max && min <= max ==> r == max
  {
    if value < min then min else if value > max then max else value
  }

  /** k whole turns of the phase circle. */
  function Turns(k: int): real {
    k as real * PhaseMax
  }

  /** The representative of x in [0, PhaseMax), specifying normalize_phase. */
  function WrapPhase(x: real): real {
    x - Turns((x / PhaseMax).Floor)
  }

  /** WrapPhase lands in [0, 2π) and moves its input by whole turns only. */
  lemma WrapPhaseSpec(x: real)
    ensures 0.0 <= WrapPhase(x) < PhaseMax
    ensures WrapPhase(x) == x + Turns(-(x / PhaseMax).Floor)
  {
    var q := x / PhaseMax;
    assert q * PhaseMax == x;
    assert q.Floor as real <= q < q.Floor as real + 1.0;
  }

  /** Two values in [0, 2π) that differ by whole turns are equal. */
  lemma TurnsUnique(a: real, b: real, k: int)
    requires 0.0 <= a < PhaseMax && 0.0 <= b < PhaseMax
    requires a == b + Turns(k)
    ensures a == b && k == 0
  {
    assert k >= 1 ==> Turns(k) >= PhaseMax;
    assert k <= -1 ==> Turns(k) <= -PhaseMax;
  }

  /** Adding whole turns does not change the wrapped phase. */
  lemma WrapPhaseShift(x: real, k: int)
    ensures WrapPhase(x + Turns(k)) == WrapPhase(x)
  {
    WrapPhaseSpec(x);
    WrapPhaseSpec(x + Turns(k));
    TurnsUnique(WrapPhase(x + Turns(k)), WrapPhase(x),
      k - ((x + Turns(k)) / PhaseMax).Floor + (x / PhaseMax).Floor);
  }

  /** A phase already in [0, 2π) is left alone, so wrapping is idempotent. */
  lemma WrapPhaseIdentity(x: real)
    requires 0.0 <= x < PhaseMax
    ensures WrapPhase(x) == x
  {
    WrapPhaseSpec(x);
    TurnsUnique(WrapPhase(x), x, -(x / PhaseMax).Floor);
  }

  lemma WrapPhaseIdempotent(x: real)
    ensures WrapPhase(WrapPhase(x)) == WrapPhase(x)
  {
    WrapPhaseSpec(x);
    WrapPhaseIdentity(WrapPhase(x));
  }

  /**
   * normalize_phase: add 2π while the phase is negative, then subtract 2π
   * while it is at least 2π.
   */
  method NormalizePhase(phase0: real) returns (phase: real)
    ensures phase == WrapPhase(phase0)
    ensures 0.0 <= phase < PhaseMax
  {
    phase := phase0;
    while phase < 0.0
      invariant WrapPhase(phase) == WrapPhase(phase0)
      decreases (-phase).Floor
    {
      WrapPhaseShift(phase, 1);
      phase := phase + PhaseMax;
    }
    while phase >= PhaseMax
      invariant phase >= 0.0
      invariant WrapPhase(phase) == WrapPhase(phase0)
      decreases phase.Floor
    {
      WrapPhaseShift(phase, -1);
      phase := phase - PhaseMax;
    }
    WrapPhaseIdentity(phase);
  }

  /**
   * (uint32_t)(x * 1000.0). C leaves conversions of values outside the uint32
   * range undefined; the model truncates toward zero and wraps modulo 2^32.
   */
  function Quantize(x: real): bv32 {
    (TruncToInt(x * 1000.0) % U32) as bv32
  }

  /** For the values the parity checks allow, quantising is floor(x * 1000). */
  lemma QuantizeInRange(x: real)
    requires 0.0 <= x <= MagnitudeMax
    ensures Quantize(x) == (x * 1000.0).Floor as bv32
  {
    assert 0 <= TruncToInt(x * 1000.0) == (x * 1000.0).Floor < U32;
  }

  /** An unsigned 32-bit value; checksum arithmetic wraps modulo 2^32. */
  type U32Word = x: int | 0 <= x < 0x1_0000_0000

  /** The word a cell contributes to the checksum: mag ^ phs ^ coh. */
  function Mix(c: Cell): U32Word {
    (Quantize(c.magnitude) ^ Quantize(c.phase) ^ Quantize(c.coherence)) as int
  }

  /** (sum << 1) | (sum >> 31) on a uint32. */
  function RotateLeft1(s: U32Word): U32Word {
    (s * 2) % U32 + s / 0x8000_0000
  }

  /** One step of compute_checksum: sum += word (mod 2^32), then rotate left by one. */
  function ChecksumStep(sum: U32Word, word: U32Word): U32Word {
    RotateLeft1((sum + word) % U32)
  }

  /** The word each cell contributes, in order. */
  function Words(cells: seq<Cell>): (ws: seq<U32Word>)
    ensures |ws| == |cells| && forall i :: 0 <= i < |cells| ==> ws[i] == Mix(cells[i])
  {
    seq(|cells|, i requires 0 <= i < |cells| => Mix(cells[i]))
  }

  /** The checksum loop as a left fold over the words, starting at 0. */
  function Fold(ws: seq<U32Word>): U32Word
    decreases |ws|
  {
    if |ws| == 0 then 0
    else ChecksumStep(Fold(ws[..|ws| - 1]), ws[|ws| - 1])
  }

  /** compute_checksum: the fold over the words of the cells. */
  function Checksum(cells: seq<Cell>): U32Word {
    Fold(Words(cells))
  }

  /** One more cell is one more checksum step. */
  lemma ChecksumPush(cells: seq<Cell>, i: nat)
    requires i < |cells|
    ensures Checksum(cells[..i + 1]) == ChecksumStep(Checksum(cells[..i]), Mix(cells[i]))
  {
    assert Words(cells[..i + 1])[..i] == Words(cells[..i]);
  }

  lemma RotateInjective(a: U32Word, b: U32Word)
    requires a != b
    ensures RotateLeft1(a) != RotateLeft1(b)
  {
    RotateSplit(a);
    RotateSplit(b);
  }

  /** Rotating left by one moves the top bit to the bottom and doubles the other 31. */
  lemma RotateSplit(a: U32Word)
    ensures a / 0x8000_0000 <= 1
    ensures RotateLeft1(a) == 2 * (a % 0x8000_0000) + a / 0x8000_0000
  {
    if a < 0x8000_0000 {
      assert a / 0x8000_0000 == 0 && a % 0x8000_0000 == a;
      assert (a * 2) % U32 == a * 2;
    } else {
      assert a / 0x8000_0000 == 1 && a % 0x8000_0000 == a - 0x8000_0000;
      assert (a * 2) % U32 == a * 2 - U32;
    }
  }

  /** With one argument fixed, a checksum step is injective in the other. */
  lemma StepInjective(s1: U32Word, w1: U32Word, s2: U32Word, w2: U32Word)
    requires (s1 == s2 && w1 != w2) || (s1 != s2 && w1 == w2)
    ensures ChecksumStep(s1, w1) != ChecksumStep(s2, w2)
  {
    RotateInjective((s1 + w1) % U32, (s2 + w2) % U32);
  }

  /** The checksum reads only magnitude, phase and coherence. */
  lemma ChecksumReadsMixOnly(a: seq<Cell>, b: seq<Cell>)
    requires |a| == |b|
    requires forall i :: 0 <= i < |a| ==> Mix(a[i]) == Mix(b[i])
    ensures Checksum(a) == Checksum(b)
  {
    assert Words(a) == Words(b);
  }

  /** Two word sequences that differ in exactly one place fold to different checksums. */
  lemma {:induction false} FoldDetectsOne(v: seq<U32Word>, w: seq<U32Word>, k: nat)
    requires |v| == |w| && k < |v|
    requires forall i :: 0 <= i < |v| && i != k ==> v[i] == w[i]
    requires v[k] != w[k]
    ensures Fold(v) != Fold(w)
    decreases |v|
  {
    var n := |v| - 1;
    if k == n {
      assert v[..n] == w[..n];
    } else {
      FoldDetectsOne(v[..n], w[..n], k);
    }
    StepInjective(Fold(v[..n]), v[n], Fold(w[..n]), w[n]);
  }

  /**
   * Two states that agree on every cell but one, whose quantised word differs,
   * have different checksums: a single-cell change is always detected.
   */
  lemma ChecksumDetectsOneCell(a: seq<Cell>, b: seq<Cell>, k: nat)
    requires |a| == |b| && k < |a|
    requires forall i :: 0 <= i < |a| && i != k ==> Mix(a[i]) == Mix(b[i])
    requires Mix(a[k]) != Mix(b[k])
    ensures Checksum(a) != Checksum(b)
  {
    FoldDetectsOne(Words(a), Words(b), k);
  }

  /** The cell substrate_write_cell leaves: clamped, wrapped, stamped with the time. */
  function Written(c: Cell, magnitude: real, phase: real, coherence: real, time: nat): Cell {
    c.(magnitude := Clamp(magnitude, 0.0, MagnitudeMax),
       phase := WrapPhase(phase),
       coherence := Clamp(coherence, 0.0, CoherenceMax),
       lastUpdate := time % U32)
  }

  /** A written cell is in range whenever its decay rate was. */
  lemma WrittenInRange(c: Cell, magnitude: real, phase: real, coherence: real, time: nat)
    requires 0.0 <= c.decayRate <= DecayRateMax
    ensures InRange(Written(c, magnitude, phase, coherence, time))
    ensures Written(c, magnitude, phase, coherence, time).lastUpdate < U32
  {
    WrapPhaseSpec(phase);
  }

  /** The per-cell parity check of substrate_sync. */
  function Synced(c: Cell): Cell {
    var phase := if c.phase < 0.0 || c.phase >= PhaseMax then WrapPhase(c.phase) else c.phase;
    var coherence :=
      if c.coherence < 0.0 || c.coherence > CoherenceMax then Clamp(c.coherence, 0.0, CoherenceMax)
      else c.coherence;
    var magnitude :=
      if c.magnitude < 0.0 || c.magnitude > MagnitudeMax then Clamp(c.magnitude, 0.0, MagnitudeMax)
      else c.magnitude;
    var decay :=
      if c.decayRate < 0.0 || c.decayRate > DecayRateMax then Clamp(c.decayRate, 0.0, DecayRateMax)
      else c.decayRate;
    c.(phase := phase, coherence := coherence, magnitude := magnitude, decayRate := decay)
  }

  /**
   * After the parity check a cell is in range; each field that already was
   * keeps its value, the phase moves by whole turns only, and timestamp and
   * flags are untouched.
   */
  lemma SyncedSpec(c: Cell)
    ensures InRange(Synced(c))
    ensures 0.0 <= c.phase < PhaseMax ==> Synced(c).phase == c.phase
    ensures 0.0 <= c.magnitude <= MagnitudeMax ==> Synced(c).magnitude == c.magnitude
    ensures 0.0 <= c.coherence <= CoherenceMax ==> Synced(c).coherence == c.coherence
    ensures 0.0 <= c.decayRate <= DecayRateMax ==> Synced(c).decayRate == c.decayRate
    ensures Synced(c).phase == WrapPhase(c.phase)
    ensures Synced(c).lastUpdate == c.lastUpdate && Synced(c).flags == c.flags
    ensures InRange(c) ==> Synced(c) == c
  {
    WrapPhaseSpec(c.phase);
    if 0.0 <= c.phase < PhaseMax {
      WrapPhaseIdentity(c.phase);
    }
  }

  /** The per-cell decay of substrate_tick, with the 0.01 underflow floor. */
  function Decayed(c: Cell): Cell {
    var m := c.magnitude * (1.0 - c.decayRate);
    c.(magnitude := if m < MagnitudeFloor then MagnitudeFloor else m)
  }

  /**
   * With a decay rate in [0, 1] and a magnitude at or above the floor, a tick
   * never raises the magnitude and never lets it fall below the floor.
   */
  lemma DecayedBounds(c: Cell)
    requires 0.0 <= c.decayRate <= DecayRateMax
    requires MagnitudeFloor <= c.magnitude
    ensures MagnitudeFloor <= Decayed(c).magnitude <= c.magnitude
  {
    assert c.magnitude * (1.0 - c.decayRate) <= c.magnitude * 1.0 by {
      assert c.magnitude * c.decayRate >= 0.0;
    }
  }

  /** A tick keeps an in-range cell in range. */
  lemma DecayedInRange(c: Cell)
    requires InRange(c)
    ensures InRange(Decayed(c))
  {
    if MagnitudeFloor <= c.magnitude {
      DecayedBounds(c);
    } else {
      assert c.magnitude * (1.0 - c.decayRate) <= c.magnitude * 1.0 by {
        assert c.magnitude * c.decayRate >= 0.0;
      }
    }
  }

  /**
   * substrate_apply_force on one cell, given the force magnitude `force` and
   * the direction `angle` that libm computed.
   */
  function Forced(c: Cell, force: real, angle: real, time: nat): Cell {
    c.(magnitude := Clamp(c.magnitude + force * (1.0 - FerrofluidViscosity), 0.0, MagnitudeMax),
       phase := WrapPhase(c.phase + angle * 0.1),
       coherence := Clamp(c.coherence + force * 0.5, 0.0, CoherenceMax),
       lastUpdate := time % U32)
  }

  /**
   * A non-negative force never lowers magnitude or coherence and keeps both
   * at most 1000; the phase stays in [0, 2π).
   */
  lemma ForcedMonotone(c: Cell, force: real, angle: real, time: nat)
    requires force >= 0.0
    requires c.magnitude <= MagnitudeMax && c.coherence <= CoherenceMax
    ensures c.magnitude <= Forced(c, force, angle, time).magnitude <= MagnitudeMax
    ensures c.coherence <= Forced(c, force, angle, time).coherence <= CoherenceMax
    ensures 0.0 <= Forced(c, force, angle, time).phase < PhaseMax
  {
    WrapPhaseSpec(c.phase + angle * 0.1);
  }

  /** Whatever the force, an in-range cell stays in range. */
  lemma ForcedInRange(c: Cell, force: real, angle: real, time: nat)
    requires InRange(c)
    ensures InRange(Forced(c, force, angle, time))
  {
    WrapPhaseSpec(c.phase + angle * 0.1);
  }

  /** The library functions the force and wave code calls. */
  datatype Libm = Libm(
    sqrt: real -> real,
    atan2: (real, real) -> real,
    cos: real -> real,
    pow: (real, real) -> real)

  /** The one fact of libm the proofs use: square roots are non-negative. */
  ghost predicate SqrtNonNegative(lib: Libm) {
    forall x :: 0.0 <= x ==> 0.0 <= lib.sqrt(x)
  }

  /** 2π·d / wavelength with wavelength = WAVE_SPEED / frequency; a zero frequency gives an infinite wavelength and no shift. */
  function PhaseShift(frequency: real, d: nat): real {
    if frequency == 0.0 then 0.0 else 2.0 * Pi * d as real / (WaveSpeed / frequency)
  }

  /** amplitude · 0.95^d · cos(frequency · time + shift). */
  function Contribution(lib: Libm, amplitude: real, frequency: real, time: nat, d: nat): real {
    amplitude * lib.pow(WaveDamping, d as real) *
      lib.cos(frequency * time as real + PhaseShift(frequency, d))
  }

  function AbsReal(x: real): real { if x < 0.0 then -x else x }

  /** The cell a wave leaves behind at distance d from its origin. */
  function Waved(c: Cell, lib: Libm, amplitude: real, frequency: real, time: nat, d: nat): Cell {
    c.(magnitude := Clamp(c.magnitude + AbsReal(Contribution(lib, amplitude, frequency, time, d)), 0.0, MagnitudeMax),
       phase := WrapPhase(c.phase + PhaseShift(frequency, d)))
  }

  /**
   * A wave never lowers a magnitude that was at most 1000 and keeps it at
   * most 1000; it only moves magnitude and phase.
   */
  lemma WavedMonotone(c: Cell, lib: Libm, amplitude: real, frequency: real, time: nat, d: nat)
    requires c.magnitude <= MagnitudeMax
    ensures c.magnitude <= Waved(c, lib, amplitude, frequency, time, d).magnitude <= MagnitudeMax
    ensures 0.0 <= Waved(c, lib, amplitude, frequency, time, d).phase < PhaseMax
    ensures Waved(c, lib, amplitude, frequency, time, d).(magnitude := c.magnitude, phase := c.phase) == c
  {
    WrapPhaseSpec(c.phase + PhaseShift(frequency, d));
  }

  /** Whatever the library returns, a wave keeps an in-range cell in range. */
  lemma WavedInRange(c: Cell, lib: Libm, amplitude: real, frequency: real, time: nat, d: nat)
    requires InRange(c)
    ensures InRange(Waved(c, lib, amplitude, frequency, time, d))
  {
    WavedMonotone(c, lib, amplitude, frequency, time, d);
  }

  /** Sum of a prefix, accumulated from the front as the source's loop does. */
  function Sum(s: seq<real>): real
    decreases |s|
  {
    if |s| == 0 then 0.0 else Sum(s[..|s| - 1]) + s[|s| - 1]
  }

  /** Sum of amp * 100 over the amplitudes. */
  function ScaledSum(s: seq<real>): real
    decreases |s|
  {
    if |s| == 0 then 0.0 else ScaledSum(s[..|s| - 1]) + s[|s| - 1] * 100.0
  }

  lemma {:induction false} ScaledSumIsHundredfold(s: seq<real>)
    ensures ScaledSum(s) == 100.0 * Sum(s)
    decreases |s|
  {
    if |s| > 0 {
      ScaledSumIsHundredfold(s[..|s| - 1]);
    }
  }

  /** A superposition: up to eight amplitude/phase pairs, of which stateCount are used. */
  datatype QuantumState = QuantumState(
    amplitudes: seq<real>,
    phases: seq<real>,
    stateCount: nat,
    collapsed: bool)

  /** The fixed-size arrays of the C struct and a uint8 count. */
  predicate WellFormed(q: QuantumState) {
    |q.amplitudes| == MaxSuperpositionStates && |q.phases| == MaxSuperpositionStates &&
    q.stateCount < 256
  }

  /** The magnitude substrate_quantum_store writes. */
  function StoredMagnitude(q: QuantumState): real
    requires WellFormed(q) && q.stateCount <= MaxSuperpositionStates
  {
    var total := Sum(q.amplitudes[..q.stateCount]);
    var scaled := ScaledSum(q.amplitudes[..q.stateCount]);
    Clamp(if total > 0.0 then scaled / total else scaled, 0.0, MagnitudeMax)
  }

  /** The phase substrate_quantum_store writes (the plain sum when the total is not positive). */
  function StoredPhase(q: QuantumState): real
    requires WellFormed(q) && q.stateCount <= MaxSuperpositionStates
  {
    var total := Sum(q.amplitudes[..q.stateCount]);
    var phases := Sum(q.phases[..q.stateCount]);
    WrapPhase(if total > 0.0 then phases / q.stateCount as real else phases)
  }

  /** The cell substrate_quantum_store leaves; its timestamp is not touched. */
  function Stored(c: Cell, q: QuantumState): Cell
    requires WellFormed(q) && q.stateCount <= MaxSuperpositionStates
  {
    c.(magnitude := StoredMagnitude(q),
       phase := StoredPhase(q),
       coherence := if q.collapsed then 0.0 else CoherenceMax,
       flags := c.flags | 1)
  }

  /** Storing a superposition keeps an in-range cell in range. */
  lemma StoredInRange(c: Cell, q: QuantumState)
    requires WellFormed(q) && q.stateCount <= MaxSuperpositionStates
    requires InRange(c)
    ensures InRange(Stored(c, q))
  {
    var total := Sum(q.amplitudes[..q.stateCount]);
    WrapPhaseSpec(if total > 0.0 then Sum(q.phases[..q.stateCount]) / q.stateCount as real
                  else Sum(q.phases[..q.stateCount]));
  }

  /**
   * The amplitude-weighted average of the constant 100 is 100: the encoding
   * keeps only whether the total amplitude is positive.
   */
  lemma StoredMagnitudeIsBinary(q: QuantumState)
    requires WellFormed(q) && q.stateCount <= MaxSuperpositionStates
    ensures StoredMagnitude(q) == if Sum(q.amplitudes[..q.stateCount]) > 0.0 then 100.0 else 0.0
  {
    var total := Sum(q.amplitudes[..q.stateCount]);
    ScaledSumIsHundredfold(q.amplitudes[..q.stateCount]);
    assert total > 0.0 ==> (100.0 * total) / total == 100.0;
  }

  /** What substrate_quantum_retrieve reconstructs from a cell into the caller's state. */
  function Retrieved(c: Cell, q: QuantumState): QuantumState
    requires WellFormed(q)
  {
    q.(stateCount := 1,
       amplitudes := q.amplitudes[0 := c.magnitude / 100.0],
       phases := q.phases[0 := c.phase],
       collapsed := c.coherence < 1.0)
  }

  /**
   * Decoding an encoded superposition: the collapsed flag survives exactly,
   * the single amplitude is 1 or 0 depending on the sign of the total, the
   * phase is the wrapped stored phase, and the cell is marked quantum.
   */
  lemma StoreRetrieve(c: Cell, q: QuantumState, out: QuantumState)
    requires WellFormed(q) && q.stateCount <= MaxSuperpositionStates && WellFormed(out)
    ensures Retrieved(Stored(c, q), out).collapsed == q.collapsed
    ensures Retrieved(Stored(c, q), out).stateCount == 1
    ensures Retrieved(Stored(c, q), out).amplitudes[0] ==
      if Sum(q.amplitudes[..q.stateCount]) > 0.0 then 1.0 else 0.0
    ensures 0.0 <= Retrieved(Stored(c, q), out).phases[0] < PhaseMax
    ensures Stored(c, q).flags & 1 == 1
  {
    StoredMagnitudeIsBinary(q);
    var total := Sum(q.amplitudes[..q.stateCount]);
    WrapPhaseSpec(if total > 0.0 then Sum(q.phases[..q.stateCount]) / q.stateCount as real
                  else Sum(q.phases[..q.stateCount]));
  }
}
