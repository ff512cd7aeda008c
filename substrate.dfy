/**
 * The field-state substrate: a fixed store of 4096 cells on a 64x64 grid with
 * a tick counter, read and write counters, an initialised flag and a rolling
 * checksum. Each method is one entry point of the handoff protocol; every one
 * that takes a cell index refuses an uninitialised store or an index outside
 * the grid with -1 and leaves everything as it was.
 */
module Substrate {
  import opened Grid
  import opened SubstrateFields
  import opened WaveSearch
  import opened WaveWalk
  import opened WaveProof

  /** Every cell inside the ranges the parity checks enforce. */
  ghost predicate AllInRange(cs: seq<Cell>) {
    forall i :: 0 <= i < |cs| ==> InRange(cs[i])
  }

  class Store {
    const cells: array<Cell>
    /** uint64 tick counter. */
    var globalTime: nat
    /** uint32 counters. */
    var writeCount: nat
    var readCount: nat
    var initialized: bool
    var checksum: U32Word

    ghost predicate Valid()
      reads this
    {
      cells.Length == CellCount && globalTime < U64 && writeCount < U32 && readCount < U32
    }

    /** The zero-filled static store before substrate_init runs. */
    constructor ()
      ensures Valid() && fresh(cells) && !initialized
      ensures forall i :: 0 <= i < CellCount ==> cells[i] == ZeroCell
      ensures globalTime == 0 && writeCount == 0 && readCount == 0 && checksum == 0
    {
      cells := new Cell[CellCount](_ => ZeroCell);
      globalTime, writeCount, readCount, checksum := 0, 0, 0, 0;
      initialized := false;
    }

    /** compute_checksum over the current cells. */
    method ComputeChecksum() returns (sum: U32Word)
      requires Valid()
      ensures sum == Checksum(cells[..])
    {
      sum := 0;
      for i := 0 to CellCount
        invariant sum == Checksum(cells[..i])
      {
        // mag ^ phs ^ coh of the quantised fields
        var word := Mix(cells[i]);
        var added := (sum + word) % U32;
        sum := RotateLeft1(added);
        ChecksumPush(cells[..], i);
        assert cells[..][..i + 1] == cells[..i + 1] && cells[..][..i] == cells[..i];
      }
      assert cells[..CellCount] == cells[..];
    }

    /** substrate_init: every cell neutral, time and counters zero, checksum of that state. */
    method Init() returns (rc: int)
      requires Valid()
      modifies this, cells
      ensures Valid() && rc == 0 && initialized
      ensures forall i :: 0 <= i < CellCount ==> cells[i] == NeutralCell
      ensures globalTime == 0 && writeCount == 0 && readCount == 0
      ensures checksum == Checksum(cells[..])
      ensures AllInRange(cells[..])
    {
      for i := 0 to CellCount
        modifies cells
        invariant forall j :: 0 <= j < i ==> cells[j] == NeutralCell
      {
        cells[i] := NeutralCell;
      }
      globalTime, writeCount, readCount := 0, 0, 0;
      initialized := true;
      checksum := ComputeChecksum();
      rc := 0;
      forall i | 0 <= i < CellCount
        ensures InRange(cells[i])
      {
      }
    }

    /** substrate_reset is substrate_init. */
    method Reset() returns (rc: int)
      requires Valid()
      modifies this, cells
      ensures Valid() && rc == 0 && initialized
      ensures forall i :: 0 <= i < CellCount ==> cells[i] == NeutralCell
      ensures globalTime == 0 && writeCount == 0 && readCount == 0
      ensures checksum == Checksum(cells[..])
    {
      rc := Init();
    }

    /** substrate_read_cell: the three field values of one cell; counts the read. */
    method ReadCell(idx: nat) returns (rc: int, magnitude: real, phase: real, coherence: real)
      requires Valid()
      modifies this`readCount
      ensures Valid()
      ensures rc == 0 <==> initialized && idx < CellCount
      ensures rc != 0 ==> rc == -1 && readCount == old(readCount)
      ensures rc == 0 ==>
        magnitude == cells[idx].magnitude && phase == cells[idx].phase &&
        coherence == cells[idx].coherence && readCount == (old(readCount) + 1) % U32
    {
      magnitude, phase, coherence := 0.0, 0.0, 0.0;
      if !initialized || idx >= CellCount {
        return -1, magnitude, phase, coherence;
      }
      var cell := cells[idx];
      magnitude, phase, coherence := cell.magnitude, cell.phase, cell.coherence;
      readCount := (readCount + 1) % U32;
      rc := 0;
    }

    /**
     * substrate_write_cell: clamps magnitude and coherence, wraps the phase,
     * stamps the cell with the low 32 bits of the time, counts the write and
     * recomputes the checksum.
     */
    method WriteCell(idx: nat, magnitude: real, phase: real, coherence: real) returns (rc: int)
      requires Valid()
      modifies this`writeCount, this`checksum, cells
      ensures Valid()
      ensures rc == 0 <==> initialized && idx < CellCount
      ensures rc != 0 ==> rc == -1 && unchanged(this) && unchanged(cells)
      ensures rc == 0 ==>
        cells[..] == old(cells[..])[idx := Written(old(cells[idx]), magnitude, phase, coherence, globalTime)] &&
        writeCount == (old(writeCount) + 1) % U32 && checksum == Checksum(cells[..])
      ensures AllInRange(old(cells[..])) ==> AllInRange(cells[..])
    {
      if !initialized || idx >= CellCount {
        return -1;
      }
      var cell := cells[idx];
      var wrapped := NormalizePhase(phase);
      cells[idx] := cell.(magnitude := Clamp(magnitude, 0.0, MagnitudeMax),
                          phase := wrapped,
                          coherence := Clamp(coherence, 0.0, CoherenceMax),
                          lastUpdate := globalTime % U32);
      writeCount := (writeCount + 1) % U32;
      checksum := ComputeChecksum();
      rc := 0;
      if AllInRange(old(cells[..])) {
        WrittenInRange(cell, magnitude, phase, coherence, globalTime);
      }
    }

    /**
     * substrate_sync: the parity check of every cell, then the checksum of the
     * repaired store.
     */
    method Sync() returns (rc: int)
      requires Valid()
      modifies this`checksum, cells
      ensures Valid()
      ensures rc == 0 <==> initialized
      ensures rc != 0 ==> rc == -1 && unchanged(this) && unchanged(cells)
      ensures rc == 0 ==> forall i :: 0 <= i < CellCount ==> cells[i] == Synced(old(cells[i]))
      ensures rc == 0 ==> checksum == Checksum(cells[..]) && AllInRange(cells[..])
    {
      if !initialized {
        return -1;
      }
      for i := 0 to CellCount
        modifies cells
        invariant forall j :: 0 <= j < i ==> cells[j] == Synced(old(cells[j]))
        invariant forall j :: i <= j < CellCount ==> cells[j] == old(cells[j])
      {
        var cell := cells[i];
        if cell.phase < 0.0 || cell.phase >= PhaseMax {
          var wrapped := NormalizePhase(cell.phase);
          cell := cell.(phase := wrapped);
        }
        if cell.coherence < 0.0 || cell.coherence > CoherenceMax {
          cell := cell.(coherence := Clamp(cell.coherence, 0.0, CoherenceMax));
        }
        if cell.magnitude < 0.0 || cell.magnitude > MagnitudeMax {
          cell := cell.(magnitude := Clamp(cell.magnitude, 0.0, MagnitudeMax));
        }
        if cell.decayRate < 0.0 || cell.decayRate > DecayRateMax {
          cell := cell.(decayRate := Clamp(cell.decayRate, 0.0, DecayRateMax));
        }
        cells[i] := cell;
      }
      checksum := ComputeChecksum();
      forall i | 0 <= i < CellCount
        ensures InRange(cells[i])
      {
        SyncedSpec(old(cells[i]));
      }
      rc := 0;
    }

    /**
     * substrate_tick: no initialised check; the uint64 clock advances and
     * every cell decays. Counters and checksum are left alone.
     */
    method Tick()
      requires Valid()
      modifies this`globalTime, cells
      ensures Valid()
      ensures globalTime == (old(globalTime) + 1) % U64
      ensures forall i :: 0 <= i < CellCount ==> cells[i] == Decayed(old(cells[i]))
      ensures AllInRange(old(cells[..])) ==> AllInRange(cells[..])
    {
      globalTime := (globalTime + 1) % U64;
      for i := 0 to CellCount
        modifies cells
        invariant forall j :: 0 <= j < i ==> cells[j] == Decayed(old(cells[j]))
        invariant forall j :: i <= j < CellCount ==> cells[j] == old(cells[j])
      {
        var cell := cells[i];
        var m := cell.magnitude * (1.0 - cell.decayRate);
        if m < MagnitudeFloor {
          m := MagnitudeFloor;
        }
        cells[i] := cell.(magnitude := m);
      }
      if AllInRange(old(cells[..])) {
        forall i | 0 <= i < CellCount
          ensures InRange(cells[i])
        {
          DecayedInRange(old(cells[i]));
        }
      }
    }

    /**
     * substrate_apply_force on one cell; the force magnitude and direction
     * come from libm. Counters and checksum are not touched.
     */
    method ApplyForce(idx: nat, forceX: real, forceY: real, forceZ: real, lib: Libm) returns (rc: int)
      requires Valid()
      modifies cells
      ensures rc == 0 <==> initialized && idx < CellCount
      ensures rc != 0 ==> rc == -1 && unchanged(cells)
      ensures rc == 0 ==>
        cells[..] == old(cells[..])[idx := Forced(old(cells[idx]),
          lib.sqrt(forceX * forceX + forceY * forceY + forceZ * forceZ),
          lib.atan2(forceY, forceX), globalTime)]
      ensures AllInRange(old(cells[..])) ==> AllInRange(cells[..])
      ensures rc == 0 && SqrtNonNegative(lib) &&
              old(cells[idx]).magnitude <= MagnitudeMax && old(cells[idx]).coherence <= CoherenceMax ==>
        old(cells[idx]).magnitude <= cells[idx].magnitude <= MagnitudeMax &&
        old(cells[idx]).coherence <= cells[idx].coherence <= CoherenceMax
    {
      if !initialized || idx >= CellCount {
        return -1;
      }
      var cell := cells[idx];
      var forceMag := lib.sqrt(forceX * forceX + forceY * forceY + forceZ * forceZ);
      var magnitude := Clamp(cell.magnitude + forceMag * (1.0 - FerrofluidViscosity), 0.0, MagnitudeMax);
      var forceAngle := lib.atan2(forceY, forceX);
      var phase := NormalizePhase(cell.phase + forceAngle * 0.1);
      var coherence := Clamp(cell.coherence + forceMag * 0.5, 0.0, CoherenceMax);
      cells[idx] := cell.(magnitude := magnitude, phase := phase, coherence := coherence,
                          lastUpdate := globalTime % U32);
      rc := 0;
      if AllInRange(old(cells[..])) {
        ForcedInRange(cell, forceMag, forceAngle, globalTime);
      }
      if SqrtNonNegative(lib) && cell.magnitude <= MagnitudeMax && cell.coherence <= CoherenceMax {
        assert forceX * forceX + forceY * forceY + forceZ * forceZ >= 0.0;
        ForcedMonotone(cell, forceMag, forceAngle, globalTime);
      }
    }

    /**
     * substrate_quantum_store: folds the used amplitude/phase pairs into one
     * cell and marks it as a quantum cell; more than eight states are refused.
     */
    method QuantumStore(idx: nat, state: QuantumState) returns (rc: int)
      requires Valid() && WellFormed(state)
      modifies cells
      ensures rc == 0 <==> initialized && idx < CellCount && state.stateCount <= MaxSuperpositionStates
      ensures rc != 0 ==> rc == -1 && unchanged(cells)
      ensures rc == 0 ==> cells[..] == old(cells[..])[idx := Stored(old(cells[idx]), state)]
      ensures AllInRange(old(cells[..])) ==> AllInRange(cells[..])
    {
      if !initialized || idx >= CellCount || state.stateCount > MaxSuperpositionStates {
        return -1;
      }
      var cell := cells[idx];
      var avgMagnitude, avgPhase, totalAmplitude := 0.0, 0.0, 0.0;
      for i := 0 to state.stateCount
        invariant totalAmplitude == Sum(state.amplitudes[..i])
        invariant avgMagnitude == ScaledSum(state.amplitudes[..i])
        invariant avgPhase == Sum(state.phases[..i])
      {
        var amp := state.amplitudes[i];
        totalAmplitude := totalAmplitude + amp;
        avgMagnitude := avgMagnitude + amp * 100.0;
        avgPhase := avgPhase + state.phases[i];
        assert state.amplitudes[..i + 1][..i] == state.amplitudes[..i];
        assert state.phases[..i + 1][..i] == state.phases[..i];
      }
      if totalAmplitude > 0.0 {
        avgMagnitude := avgMagnitude / totalAmplitude;
        avgPhase := avgPhase / state.stateCount as real;
      }
      var phase := NormalizePhase(avgPhase);
      cells[idx] := cell.(magnitude := Clamp(avgMagnitude, 0.0, MagnitudeMax),
                          phase := phase,
                          coherence := if state.collapsed then 0.0 else CoherenceMax,
                          flags := cell.flags | 1);
      rc := 0;
      if AllInRange(old(cells[..])) {
        StoredInRange(cell, state);
      }
    }

    /**
     * substrate_quantum_retrieve: rebuilds a one-state superposition from a
     * cell into the caller's state; the store is not changed.
     */
    method QuantumRetrieve(idx: nat, state: QuantumState) returns (rc: int, out: QuantumState)
      requires Valid() && WellFormed(state)
      ensures rc == 0 <==> initialized && idx < CellCount
      ensures rc != 0 ==> rc == -1 && out == state
      ensures rc == 0 ==> out == Retrieved(cells[idx], state) && WellFormed(out)
      ensures rc == 0 ==>
        out.stateCount == 1 && out.amplitudes[0] == cells[idx].magnitude / 100.0 &&
        (out.collapsed <==> cells[idx].coherence < 1.0)
    {
      if !initialized || idx >= CellCount {
        return -1, state;
      }
      var cell := cells[idx];
      out := state.(stateCount := 1,
                    amplitudes := state.amplitudes[0 := cell.magnitude / 100.0],
                    phases := state.phases[0 := cell.phase],
                    collapsed := cell.coherence < 1.0);
      rc := 0;
    }

    /** One dequeued cell of substrate_propagate_wave receives the damped wave for its distance. */
    method ApplyWave(current: nat, distance: nat, amplitude: real, frequency: real, lib: Libm)
      requires Valid() && current < CellCount
      modifies cells
      ensures cells[..] == old(cells[..])[current := Waved(old(cells[current]), lib, amplitude, frequency, globalTime, distance)]
    {
      var attenuation := lib.pow(WaveDamping, distance as real);
      var phaseShift := PhaseShift(frequency, distance);
      var cell := cells[current];
      var contribution := amplitude * attenuation * lib.cos(frequency * globalTime as real + phaseShift);
      assert contribution == Contribution(lib, amplitude, frequency, globalTime, distance);
      var magnitude := Clamp(cell.magnitude + AbsReal(contribution), 0.0, MagnitudeMax);
      var phase := NormalizePhase(cell.phase + phaseShift);
      cells[current] := cell.(magnitude := magnitude, phase := phase);
    }

    /**
     * One pass of the main loop of substrate_propagate_wave: the cell at the
     * head of the queue is dequeued and receives the wave for its recorded
     * distance, then its neighbours are enqueued; the walk's state `st0`
     * becomes `Process(st0, head0)`.
     */
    method WaveStep(amplitude: real, frequency: real, lib: Libm,
                    visited: array<bool>, queue: array<nat>, distances: array<nat>,
                    head0: nat, tail0: nat, ghost st0: Frontier)
      returns (head: nat, tail: nat, distance: nat, ghost st: Frontier)
      requires Valid() && queue != distances
      requires Sized(st0) && Mirrors(st0, visited, queue, distances, tail0) && head0 < tail0 && st0.q[head0] < CellCount
      modifies cells, visited, queue, distances
      ensures head == head0 + 1 && distance == st0.dist[st0.q[head0]]
      ensures st == Process(st0, head0) && Mirrors(st, visited, queue, distances, tail)
      ensures cells[..] == old(cells[..])[st0.q[head0] :=
        Waved(old(cells[st0.q[head0]]), lib, amplitude, frequency, globalTime, distance)]
    {
      var current := queue[head0];
      head := head0 + 1;
      distance := distances[current];
      ApplyWave(current, distance, amplitude, frequency, lib);
      tail := EnqueueNeighbors(st0, current, distance + 1, visited, queue, distances, tail0);
      st := Sweep(st0, Neighbors(current), distance + 1, |Neighbors(current)|);
    }

    /**
     * substrate_propagate_wave: a breadth-first walk from the origin over the
     * 4-neighbour grid. Each dequeued cell receives the damped wave for its
     * distance; the walk stops right after processing the first cell more
     * than ten hops out. Exactly the cells of `Walk(origin)` change (WalkSpec and
     * WalkDistances say which cells those are); counters and checksum are not touched.
     */
    method PropagateWave(origin: nat, amplitude: real, frequency: real, lib: Libm) returns (rc: int)
      requires Valid()
      modifies cells
      ensures rc == 0 <==> initialized && origin < CellCount
      ensures rc != 0 ==> rc == -1 && unchanged(cells)
      ensures rc == 0 ==> forall c :: 0 <= c < CellCount ==>
        cells[c] == if c in Walk(origin) then Waved(old(cells[c]), lib, amplitude, frequency, globalTime, Manhattan(origin, c))
                    else old(cells[c])
    {
      if !initialized || origin >= CellCount {
        return -1;
      }
      var visited, queue, distances, tail := StartWave(origin);
      var head := 0;
      // the source leaves the loop with `break`; `stop` records that exit
      var stop := false;
      ghost var st := State(origin, 0);

      while head < tail && !stop
        invariant head <= tail && st == State(origin, head) && Mirrors(st, visited, queue, distances, tail)
        invariant !stop ==> Halt(origin, 0) == Halt(origin, head)
        invariant stop ==> Halt(origin, 0) == head
        invariant WaveApplied(old(cells[..]), cells[..], st.q[..head], origin, lib, amplitude, frequency, globalTime)
        decreases CellCount - head, if stop then 0 else 1
      {
        SlotInside(origin, head, st);
        StateAdvance(origin, head, head + 1, st, st.q[head], st.dist[st.q[head]] + 1);
        ghost var before, done, c := cells[..], st.q[..head], st.q[head];
        var distance;
        head, tail, distance, st := WaveStep(amplitude, frequency, lib, visited, queue, distances, head, tail, st);
        WaveAppliedStep(old(cells[..]), before, cells[..], done, c, origin, lib, amplitude, frequency, globalTime);
        if distance > 10 {
          stop := true;
        }
      }
      WalkEnds(origin, head, stop, st);
      rc := 0;
    }
  }

  /**
   * The set-up of substrate_propagate_wave: fresh visited flags, queue and
   * distances holding only the origin, at distance 0.
   */
  method StartWave(origin: nat) returns (visited: array<bool>, queue: array<nat>, distances: array<nat>, tail: nat)
    requires origin < CellCount
    ensures fresh(visited) && fresh(queue) && fresh(distances) && queue != distances
    ensures Mirrors(State(origin, 0), visited, queue, distances, tail)
  {
    visited := new bool[CellCount](_ => false);
    queue := new nat[CellCount](_ => 0);
    distances := new nat[CellCount](_ => 0);
    tail := 0;
    queue[tail] := origin;
    tail := tail + 1;
    visited[origin] := true;
    distances[origin] := 0;
    assert visited[..] == NoneVisited()[origin := true];
    assert queue[..] == Zeros()[0 := origin];
    assert distances[..] == Zeros()[origin := 0];
  }

  /**
   * The neighbour loop of substrate_propagate_wave: every neighbour not yet
   * visited is marked, appended at the tail and given distance `dn` while
   * the queue has room.
   */
  method EnqueueNeighbors(ghost s: Frontier, current: nat, dn: nat,
                          visited: array<bool>, queue: array<nat>, distances: array<nat>, tail0: nat)
    returns (tail: nat)
    requires Sized(s) && Mirrors(s, visited, queue, distances, tail0) && queue != distances
    modifies visited, queue, distances
    ensures Mirrors(Sweep(s, Neighbors(current), dn, |Neighbors(current)|), visited, queue, distances, tail)
  {
    tail := tail0;
    var neighbors := Neighbors(current);
    NeighborsInside(current);
    for i := 0 to |neighbors|
      invariant Mirrors(Sweep(s, neighbors, dn, i), visited, queue, distances, tail)
    {
      var neighbor := neighbors[i];
      if !visited[neighbor] && tail < CellCount {
        ghost var v, q, d := visited[..], queue[..], distances[..];
        visited[neighbor] := true;
        queue[tail] := neighbor;
        tail := tail + 1;
        distances[neighbor] := dn;
        assert visited[..] == v[neighbor := true];
        assert queue[..] == q[tail - 1 := neighbor];
        assert distances[..] == d[neighbor := dn];
      }
    }
  }

  /**
   * `after` is `before` with the wave applied to exactly the cells of
   * `done`, each at its Manhattan distance from `o`.
   */
  ghost predicate WaveApplied(before: seq<Cell>, after: seq<Cell>, done: seq<nat>,
                              o: nat, lib: Libm, amplitude: real, frequency: real, time: nat) {
    |before| == CellCount && |after| == CellCount &&
    forall c :: 0 <= c < CellCount ==>
      after[c] == if c in done then Waved(before[c], lib, amplitude, frequency, time, Manhattan(o, c)) else before[c]
  }

  /** Applying the wave to one more cell, not yet reached, extends `done` by that cell. */
  lemma WaveAppliedStep(before: seq<Cell>, mid: seq<Cell>, after: seq<Cell>, done: seq<nat>, c: nat,
                        o: nat, lib: Libm, amplitude: real, frequency: real, time: nat)
    requires WaveApplied(before, mid, done, o, lib, amplitude, frequency, time)
    requires c < CellCount && c !in done
    requires after == mid[c := Waved(mid[c], lib, amplitude, frequency, time, Manhattan(o, c))]
    ensures WaveApplied(before, after, done + [c], o, lib, amplitude, frequency, time)
  {
  }

  /** The walk's arrays and tail hold the state `s`. */
  ghost predicate Mirrors(s: Frontier, visited: array<bool>, queue: array<nat>, distances: array<nat>, tail: nat)
    reads visited, queue, distances
  {
    visited[..] == s.vis && queue[..] == s.q && distances[..] == s.dist && tail == s.tail
  }
}
