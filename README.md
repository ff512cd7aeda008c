# GlyphOS core, modelled in Dafny

GlyphOS stores "glyphs" in a field-state substrate and runs them through an interpreter. A glyph is a named unit of content with an energy, an activation count and a provenance. This project models the sequential core of the repository and proves properties of it. It covers six parts.

- **The substrate** (`glyphos-handoff-20251204/freebsd/src/substrate_core.c`). A store of 4096 cells laid out on a 64×64 grid. `Substrate.Store` is a class that holds the cell array and the counters and keeps them in place. It models the handoff protocol: init, reset, read, write, sync and the rolling checksum. It also models the decay tick, force injection, the quantum store/retrieve pair and the bounded breadth-first wave. Cell arithmetic is in `SubstrateFields`. The grid neighbourhood is in `Grid`. The wave is in three modules:
  - `WaveWalk`: the order in which cells are visited, as a function;
  - `WaveSearch`: the queue discipline;
  - `WaveProof`: distances, coverage and the hop bound.
- **The glyph definition front end** (`glyphos-handoff-20251204/freebsd/src/glyph_interpreter.c`):
  - C-string helpers (`CLib`, `CString`);
  - the GDF field and line parser (`Gdf`);
  - activation commands and sequences (`Activation`);
  - the glyph registry, the trace log, depth-bounded inheritance and command execution (`GlyphRuntime`).
- **The fuzz targets** (`glyphos-handoff-20251204/freebsd/ci`). `FuzzGdf` models the self-contained buffer parser with its acceptance rule. `FuzzMutate` models the in-place byte mutator.
- **The security helpers** (`glyphos-handoff-20251204/freebsd/src/security_utils.c`, module `SecurityUtils`):
  - the filename and glyph-id validators;
  - the in-place sanitiser;
  - the string checks of vault-path validation;
  - the cycle-detection context.
- **The metrics registry** (`glyphos-handoff-20251204/freebsd/src/metrics.c`, module `Metrics`): find-or-create over a bounded table, counters, gauges and cumulative histograms.
- **The merge primitive and its implementations.**
  - `MergeSpec` states the merge rule once, generically:
    - the higher-energy glyph leads, and ties go to the first argument;
    - the content is the leader's, then " + ", then the other's;
    - the energies add;
    - activation count and last update take the maximum;
    - the parents are recorded.
  - Each implementation is modelled in its own module, and a `MergeRefines` lemma relates it to `MergeSpec`:
    - the Python dynamics engine (`Dynamics`, from `runtime/dynamics/engine.py`);
    - the Python SPU wrapper (`SpuWrapper`);
    - the C++ reference (`MergeRefCpp`, from `runtime/spu/merge_ref.cpp`);
    - the SPU reference with its batch (`MergeReferenceCpp`, from `spu/merge_reference.cpp`);
    - the Rust service (`GlyphSpu`);
    - the HLS core (`MergeHls`).
  - `SpuHash` models the shared stand-in "sha256". It is a 32-bit fold `h := (h << 5) + h ^ byte` spread over 64 hexadecimal digits or 16 words. It is not FIPS 180-4 SHA-256, and the model treats it exactly as written.

All quantities are modelled as follows.

- C `double` and Python `float` are `real`.
- Fixed-width integers are written out with explicit wrap-around where the source wraps:
  - the substrate's 32-bit read/write counters and 64-bit clock;
  - the checksum's `uint32_t` quantisation;
  - the HLS Q16.16 energy.
- Byte strings are `seq<bv8>`; text is `string`.
- Library mathematics (`sqrt`, `atan2`, `cos`, `pow`, `atof`, `atoi`) and real SHA-256 are function-valued parameters. Only the facts a proof needs are required of them.

## Where the code and its comments differ

The model follows the code in each case.

- The comment at `glyphos-handoff-20251204/freebsd/src/substrate_core.c:165` speaks of six neighbours. `get_cell_neighbors` builds at most four.
- The comment at `glyphos-handoff-20251204/freebsd/src/substrate_core.c:127` gives phase the closed range [0, 2π]. The code gives the half-open range [0, 2π).
- `register_glyph` prints that it is "updating" an existing glyph, but it returns without storing anything.

## Behaviour of the code worth noting

- `substrate_quantum_store` does not update the cell's `last_update`, unlike `substrate_write_cell` and `substrate_apply_force` (`glyphos-handoff-20251204/freebsd/src/substrate_core.c:524-570`).
- `substrate_quantum_retrieve` does not increment `read_count`, unlike `substrate_read_cell`.
- `substrate_propagate_wave` does not stop at ten hops. Its loop breaks only after it has processed the first cell whose distance is above 10, so cells at distance 11 can change. No cell at distance 12 or more changes (`glyphos-handoff-20251204/freebsd/src/substrate_core.c:504-507`). See `WaveProof.WalkDistances`.
- A wave frequency of zero is not rejected. `WAVE_SPEED / 0` is an infinite wavelength, which makes the phase shift 0; the model gives that shift directly.
- `substrate_quantum_store` normalises with `Σ(aᵢ·100) / Σaᵢ`. Over the reals this is exactly 100 whenever the total amplitude is positive, so the stored magnitude is then always 100.

## Model

| member | source | states |
|---|---|---|
| Grid.NeighborCount | glyphos-handoff-20251204/freebsd/src/substrate_core.c:167-195 | get_cell_neighbors gives no neighbours for an index of 4096 or more, two at a corner, three on an edge and four inside the grid |
| Grid.NeighborShape | glyphos-handoff-20251204/freebsd/src/substrate_core.c:176-192 | every neighbour is a cell of the store and is idx±1 in the same row or idx±64 |
| Grid.NeighborsInside | glyphos-handoff-20251204/freebsd/src/substrate_core.c:167-195 | every listed neighbour index is below 4096, so the wave's arrays are never indexed out of range |
| Grid.NeighborsIff | glyphos-handoff-20251204/freebsd/src/substrate_core.c:167-195 | b is listed as a neighbour of a exactly when both are cells of the store one row or column step apart (4 neighbours, not the "6-neighbor" of the comment) |
| Grid.NeighborsExactly | glyphos-handoff-20251204/freebsd/src/substrate_core.c:167-195 | the neighbour list is exactly the set of adjacent cells |
| Grid.NeighborsAdjacent | glyphos-handoff-20251204/freebsd/src/substrate_core.c:167-195 | each entry of the neighbour list is in the store and adjacent to the cell |
| Grid.NeighborDistance | glyphos-handoff-20251204/freebsd/src/substrate_core.c:173-192 | one neighbour hop changes the Manhattan distance from any fixed cell by exactly one |
| Grid.Position | glyphos-handoff-20251204/freebsd/src/substrate_core.c:173-174 | x = idx % 64 and y = idx / 64 recover the column and row of a cell |
| Grid.StepToward | glyphos-handoff-20251204/freebsd/src/substrate_core.c:167-195 | every cell other than the origin has a neighbour one hop closer to the origin |
| SubstrateFields.Clamp | glyphos-handoff-20251204/freebsd/src/substrate_core.c:142-146 | clamp_double returns a value in [min, max], the input itself when it is inside, min below and max above |
| SubstrateFields.WrapPhaseSpec | glyphos-handoff-20251204/freebsd/src/substrate_core.c:128-137 | the wrapped phase lies in the half-open [0, 2π) (not the [0, 2π] of the comment) and differs from the input by whole turns |
| SubstrateFields.TurnsUnique | glyphos-handoff-20251204/freebsd/src/substrate_core.c:128-137 | two phases in [0, 2π) that differ by whole turns are equal, so the wrapped value is unique |
| SubstrateFields.WrapPhaseShift | glyphos-handoff-20251204/freebsd/src/substrate_core.c:128-137 | adding whole turns to a phase does not change its wrapped value |
| SubstrateFields.WrapPhaseIdentity | glyphos-handoff-20251204/freebsd/src/substrate_core.c:128-137 | a phase already in [0, 2π) is returned unchanged |
| SubstrateFields.WrapPhaseIdempotent | glyphos-handoff-20251204/freebsd/src/substrate_core.c:128-137 | wrapping twice is wrapping once |
| SubstrateFields.NormalizePhase | glyphos-handoff-20251204/freebsd/src/substrate_core.c:128-137 | the two while loops of normalize_phase end with the unique representative in [0, 2π) |
| SubstrateFields.QuantizeInRange | glyphos-handoff-20251204/freebsd/src/substrate_core.c:154-157 | for in-range fields the (uint32_t)(x * 1000.0) conversion is floor(x * 1000) |
| SubstrateFields.Words | glyphos-handoff-20251204/freebsd/src/substrate_core.c:153-160 | each cell contributes mag ^ phs ^ coh to the checksum, in cell order |
| SubstrateFields.ChecksumPush | glyphos-handoff-20251204/freebsd/src/substrate_core.c:151-162 | one more cell is one more add-then-rotate-left step of compute_checksum |
| SubstrateFields.RotateInjective | glyphos-handoff-20251204/freebsd/src/substrate_core.c:159 | the rotate-left-by-one of a uint32 loses no information |
| SubstrateFields.RotateSplit | glyphos-handoff-20251204/freebsd/src/substrate_core.c:159 | (sum << 1) \| (sum >> 31) moves the top bit to the bottom and doubles the other 31 bits |
| SubstrateFields.StepInjective | glyphos-handoff-20251204/freebsd/src/substrate_core.c:158-159 | a checksum step with one argument fixed is injective in the other |
| SubstrateFields.ChecksumReadsMixOnly | glyphos-handoff-20251204/freebsd/src/substrate_core.c:151-162 | the checksum reads only quantised magnitude, phase and coherence: decay rate, timestamps and flags do not affect it |
| SubstrateFields.FoldDetectsOne | glyphos-handoff-20251204/freebsd/src/substrate_core.c:151-162 | two word sequences differing in exactly one position fold to different checksums |
| SubstrateFields.ChecksumDetectsOneCell | glyphos-handoff-20251204/freebsd/src/substrate_core.c:151-162 | a change to one cell's quantised word always changes the checksum |
| SubstrateFields.WrittenInRange | glyphos-handoff-20251204/freebsd/src/substrate_core.c:294-301 | the cell substrate_write_cell leaves has magnitude and coherence in [0, 1000] and phase in [0, 2π), whatever was written |
| SubstrateFields.SyncedSpec | glyphos-handoff-20251204/freebsd/src/substrate_core.c:314-360 | after the parity check a cell is in range, every field already in range keeps its value, the phase moves by whole turns only, timestamp and flags are untouched, and an in-range cell is unchanged |
| SubstrateFields.DecayedBounds | glyphos-handoff-20251204/freebsd/src/substrate_core.c:365-378 | with decay rate in [0, 1] and magnitude at least 0.01, a tick never raises the magnitude and never lets it fall below 0.01 |
| SubstrateFields.DecayedInRange | glyphos-handoff-20251204/freebsd/src/substrate_core.c:365-378 | a tick keeps an in-range cell in range |
| SubstrateFields.ForcedMonotone | glyphos-handoff-20251204/freebsd/src/substrate_core.c:409-426 | a non-negative force magnitude never lowers magnitude or coherence, keeps both at most 1000, and leaves the phase in [0, 2π) |
| SubstrateFields.ForcedInRange | glyphos-handoff-20251204/freebsd/src/substrate_core.c:409-428 | whatever libm returns, apply_force keeps an in-range cell in range |
| SubstrateFields.WavedMonotone | glyphos-handoff-20251204/freebsd/src/substrate_core.c:476-487 | a wave never lowers a magnitude that was at most 1000, keeps it at most 1000, wraps the phase, and changes no other field |
| SubstrateFields.WavedInRange | glyphos-handoff-20251204/freebsd/src/substrate_core.c:476-487 | a wave keeps an in-range cell in range |
| SubstrateFields.ScaledSumIsHundredfold | glyphos-handoff-20251204/freebsd/src/substrate_core.c:554-559 | summing amp * 100 gives 100 times the total amplitude |
| SubstrateFields.StoredInRange | glyphos-handoff-20251204/freebsd/src/substrate_core.c:547-569 | quantum_store keeps an in-range cell in range |
| SubstrateFields.StoredMagnitudeIsBinary | glyphos-handoff-20251204/freebsd/src/substrate_core.c:550-566 | the stored magnitude is 100 when the total amplitude is positive and 0 otherwise: the encoding keeps nothing else of the amplitudes |
| SubstrateFields.StoreRetrieve | glyphos-handoff-20251204/freebsd/src/substrate_core.c:547-569 | retrieving a stored superposition returns the collapsed flag exactly, one state of amplitude 1 or 0 by the sign of the total, a phase in [0, 2π), and the cell carries quantum flag 0x01 |
| Substrate.Store.constructor | glyphos-handoff-20251204/freebsd/src/substrate_core.c:85-93 | the static store starts zero-filled and uninitialised, with time, counters and checksum zero |
| Substrate.Store.ComputeChecksum | glyphos-handoff-20251204/freebsd/src/substrate_core.c:151-162 | the loop of compute_checksum returns the checksum fold over the current cells |
| Substrate.Store.Init | glyphos-handoff-20251204/freebsd/src/substrate_core.c:204-224 | substrate_init sets every cell to magnitude 100, phase 0, coherence 500, decay 0.01, timestamp and flags 0, zeroes time and counters, marks the store initialised and stores the checksum of that state |
| Substrate.Store.Reset | glyphos-handoff-20251204/freebsd/src/substrate_core.c:229-231 | substrate_reset leaves the same state as substrate_init |
| Substrate.Store.ReadCell | glyphos-handoff-20251204/freebsd/src/substrate_core.c:246-272 | read_cell succeeds exactly when the store is initialised and the index is below 4096; then it returns the stored magnitude, phase and coherence and only increments read_count, otherwise it returns -1 and changes nothing |
| Substrate.Store.WriteCell | glyphos-handoff-20251204/freebsd/src/substrate_core.c:283-307 | write_cell succeeds exactly when initialised and in bounds; it replaces only the target cell by its clamped and wrapped values stamped with the low 32 bits of the time, increments write_count, stores the checksum of the new state and keeps the store in range; on failure it returns -1 and changes nothing |
| Substrate.Store.Sync | glyphos-handoff-20251204/freebsd/src/substrate_core.c:314-360 | sync fails with -1 on an uninitialised store; otherwise every cell becomes its parity-checked version and the checksum is that of the repaired store, which is entirely in range |
| Substrate.Store.Tick | glyphos-handoff-20251204/freebsd/src/substrate_core.c:365-378 | tick has no initialised check; it advances the 64-bit clock by one and decays every cell with the 0.01 floor, leaving counters and checksum alone |
| Substrate.Store.ApplyForce | glyphos-handoff-20251204/freebsd/src/substrate_core.c:395-430 | apply_force succeeds exactly when initialised and in bounds and then changes only the target cell as the force rule says, without touching counters or checksum; on failure it returns -1 and changes nothing; when libm's square roots are non-negative, the target's magnitude and coherence are not lowered and stay at most 1000 |
| Substrate.Store.QuantumStore | glyphos-handoff-20251204/freebsd/src/substrate_core.c:524-571 | quantum_store refuses an uninitialised store, an index out of bounds or more than eight states; otherwise it replaces only the target cell by the stored superposition, keeping its timestamp |
| Substrate.Store.QuantumRetrieve | glyphos-handoff-20251204/freebsd/src/substrate_core.c:580-611 | quantum_retrieve returns one state with amplitude magnitude/100, the cell's phase and collapsed exactly when coherence is below 1, and changes nothing in the store |
| Substrate.Store.ApplyWave | glyphos-handoff-20251204/freebsd/src/substrate_core.c:474-487 | a dequeued cell receives the damped wave contribution for its distance and no other cell changes |
| Substrate.Store.WaveStep | glyphos-handoff-20251204/freebsd/src/substrate_core.c:470-500 | one pass of the main loop dequeues the head cell, applies the wave for its recorded distance and enqueues its neighbours, which advances the walk's state by one processed slot |
| Substrate.Store.PropagateWave | glyphos-handoff-20251204/freebsd/src/substrate_core.c:442-511 | propagate_wave fails with -1 on an uninitialised store or an origin out of bounds; otherwise exactly the cells of the breadth-first walk change, each by the wave at its Manhattan distance from the origin |
| Substrate.StartWave | glyphos-handoff-20251204/freebsd/src/substrate_core.c:461-468 | the walk starts with cleared visited flags and a queue holding only the origin at distance 0 |
| Substrate.EnqueueNeighbors | glyphos-handoff-20251204/freebsd/src/substrate_core.c:489-500 | the neighbour loop marks, enqueues and gives distance d+1 to every unvisited neighbour while the queue has room |
| Substrate.WaveAppliedStep | glyphos-handoff-20251204/freebsd/src/substrate_core.c:470-508 | applying the wave to one more unreached cell extends the set of changed cells by that cell only |
| WaveWalk.Init | glyphos-handoff-20251204/freebsd/src/substrate_core.c:461-468 | the initial walk state has the origin alone in the queue |
| WaveWalk.Visit | glyphos-handoff-20251204/freebsd/src/substrate_core.c:494-499 | one neighbour pass never shrinks the queue |
| WaveWalk.Halt | glyphos-handoff-20251204/freebsd/src/substrate_core.c:470-508 | the number of queue slots processed before the queue runs dry or the first cell more than ten hops out is processed |
| WaveWalk.VisitMarks | glyphos-handoff-20251204/freebsd/src/substrate_core.c:494-499 | the number of visited flags equals the queue length, so a visit of a cell of the store always marks it |
| WaveWalk.VisitFrame | glyphos-handoff-20251204/freebsd/src/substrate_core.c:494-499 | a visit keeps the queue so far and the flags and distances of cells already visited |
| WaveSearch.CountTrueRoom | glyphos-handoff-20251204/freebsd/src/substrate_core.c:494 | while some cell is unvisited the queue is not full, so the queue_tail < 4096 guard never drops a neighbour |
| WaveSearch.QueuedDistinct | glyphos-handoff-20251204/freebsd/src/substrate_core.c:494-499 | a queued cell appears in no earlier queue slot: each cell is enqueued at most once |
| WaveSearch.Enqueue | glyphos-handoff-20251204/freebsd/src/substrate_core.c:494-499 | enqueuing an unvisited neighbour records its Manhattan distance and keeps the queue distinct, ordered by distance and complete |
| WaveSearch.CloseStep | glyphos-handoff-20251204/freebsd/src/substrate_core.c:470-500 | once all neighbours of the processed cell are visited the completeness facts move one slot along |
| WaveSearch.ReachesAll | glyphos-handoff-20251204/freebsd/src/substrate_core.c:167-195 | a neighbour-closed visited set containing the origin contains every cell of the grid |
| WaveSearch.ProcessedAll | glyphos-handoff-20251204/freebsd/src/substrate_core.c:470-500 | if the queue ran dry every cell would have been processed |
| WaveSearch.NeverDrains | glyphos-handoff-20251204/freebsd/src/substrate_core.c:470-508 | the queue cannot run dry before a cell twelve or more hops out is processed, so the hop bound always ends the walk |
| WaveSearch.Outcome | glyphos-handoff-20251204/freebsd/src/substrate_core.c:470-508 | when the loop ends the last processed cell is eleven hops out, every cell within ten hops was processed, and the queue holds distinct cells |
| WaveSearch.EnqueueMidway | glyphos-handoff-20251204/freebsd/src/substrate_core.c:494-499 | enqueuing a neighbour keeps the walk's invariants and finds room in the queue |
| WaveSearch.CloseMidway | glyphos-handoff-20251204/freebsd/src/substrate_core.c:470-500 | finishing a cell's neighbour loop readies the invariants for the next slot |
| WaveProof.SweepFrame | glyphos-handoff-20251204/freebsd/src/substrate_core.c:492-500 | the neighbour loop keeps the queue so far and the flags and distances of visited cells |
| WaveProof.SweepMarks | glyphos-handoff-20251204/freebsd/src/substrate_core.c:492-500 | after the neighbour loop every listed neighbour is visited |
| WaveProof.ProcessMarks | glyphos-handoff-20251204/freebsd/src/substrate_core.c:470-500 | processing a slot visits every cell one hop from its cell |
| WaveProof.ProcessStep | glyphos-handoff-20251204/freebsd/src/substrate_core.c:470-500 | processing the next slot keeps the traversal invariants one slot further |
| WaveProof.StateInv | glyphos-handoff-20251204/freebsd/src/substrate_core.c:470-500 | every state the walk reaches satisfies the traversal invariants |
| WaveProof.StatePrefix | glyphos-handoff-20251204/freebsd/src/substrate_core.c:470-500 | the queue is only appended to: its prefix survives every later step |
| WaveProof.StateNext | glyphos-handoff-20251204/freebsd/src/substrate_core.c:471-472 | the cell dequeued next is new to the processed prefix and its recorded distance is its Manhattan distance from the origin |
| WaveProof.HaltFacts | glyphos-handoff-20251204/freebsd/src/substrate_core.c:503-505 | the walk stops right after the first slot more than ten hops out, which is exactly eleven out, every earlier slot being within ten |
| WaveProof.WalkEnds | glyphos-handoff-20251204/freebsd/src/substrate_core.c:470-508 | however the main loop is left, the processed prefix of the queue is the walk |
| WaveProof.WalkSpec | glyphos-handoff-20251204/freebsd/src/substrate_core.c:442-511 | the wave starts at the origin, processes only cells of the store, each at most once, and every cell within ten hops |
| WaveProof.WalkDistances | glyphos-handoff-20251204/freebsd/src/substrate_core.c:470-508 | cells are processed in non-decreasing distance from the origin, all but the last within ten hops and the last exactly eleven out, so no cell twelve or more hops out changes |
| CLib.TruncToIntBounds | glyphos-handoff-20251204/freebsd/src/glyph_interpreter.c:507 | the C conversion of a double to an int truncates toward zero: it stays within one of the value and never moves away from zero |
| CLib.CDivTwo | glyphos-handoff-20251204/freebsd/src/glyph_interpreter.c:451 | halving an int in C gives the exact half rounded toward zero, never farther from zero than the value |
| CString.Truncate | glyphos-handoff-20251204/freebsd/src/glyph_interpreter.c:203-204 | a strncpy of size - 1 into a zeroed buffer keeps the whole text when it fits and otherwise exactly its first size - 1 characters |
| CString.Find | glyphos-handoff-20251204/freebsd/src/glyph_interpreter.c:293 | strchr finds the first occurrence: every earlier character differs, and the text's end means the character is absent |
| CString.TokensShape | glyphos-handoff-20251204/freebsd/src/glyph_interpreter.c:184-191 | strtok hands out only non-empty tokens that contain no delimiter |
| CString.KeepFirstIsPrefix | glyphos-handoff-20251204/freebsd/src/glyph_interpreter.c:184-192 | the capped token loop keeps exactly the first room convertible tokens, in order |
| CString.KeepFirstSpec | glyphos-handoff-20251204/freebsd/src/glyph_interpreter.c:184-192 | the capped token loop holds at most room values, a prefix of all convertible tokens, all of them when they fit, each the conversion of some token |
| CString.KeepTokens | glyphos-handoff-20251204/freebsd/src/glyph_interpreter.c:184-192 | the strtok loop that stops when full computes the capped keep-first list |
| CString.TrimBounds | glyphos-handoff-20251204/freebsd/src/glyph_interpreter.c:127-135 | trim_whitespace keeps s[lo..hi] where everything before lo and from hi on is whitespace, and that slice is the trimmed text |
| CString.SkipLeading | glyphos-handoff-20251204/freebsd/src/glyph_interpreter.c:128 | the start pointer stops at the first non-whitespace character, having passed only whitespace |
| CString.SkipTrailing | glyphos-handoff-20251204/freebsd/src/glyph_interpreter.c:131-133 | the end pointer walks back over trailing whitespace and never past the first kept character |
| CString.TrimSpec | glyphos-handoff-20251204/freebsd/src/glyph_interpreter.c:127-135 | the trimmed text is the input minus a whitespace prefix and suffix, and neither starts nor ends with whitespace |
| CString.TrimEmptyIff | glyphos-handoff-20251204/freebsd/src/glyph_interpreter.c:129 | a text trims to empty exactly when it is all whitespace |
| CString.TrimIdempotent | glyphos-handoff-20251204/freebsd/src/glyph_interpreter.c:127-135 | trimming an already trimmed text changes nothing |
| Gdf.FieldOf | glyphos-handoff-20251204/freebsd/src/glyph_interpreter.c:202-251 | a trimmed key selects a field exactly when it equals that field's key or alias, and no field otherwise |
| Gdf.SetField | glyphos-handoff-20251204/freebsd/src/glyph_interpreter.c:202-251 | each branch of parse_gdf_field sets its one field to the converted or truncated value and leaves every other field alone |
| Gdf.ParseField | glyphos-handoff-20251204/freebsd/src/glyph_interpreter.c:198-261 | the key is recognised exactly when its trimmed text is some field's key or alias; then the field that key names takes the trimmed value, every other field is kept, and an unknown key leaves the record unchanged |
| Gdf.ParentListSpec | glyphos-handoff-20251204/freebsd/src/glyph_interpreter.c:178-195 | at most 16 parents, each non-empty, under 64 characters, comma-free and not starting with whitespace: the first 16 non-blank tokens in order, all of them when they fit |
| Gdf.ParseParentList | glyphos-handoff-20251204/freebsd/src/glyph_interpreter.c:178-195 | the strtok loop of parse_parent_list computes the parent list specified above |
| Gdf.LineEntry | glyphos-handoff-20251204/freebsd/src/glyph_interpreter.c:286-300 | a line is skipped exactly when its trimmed text is blank, a '#' comment or has no ':'; otherwise it is split at its first ':' |
| Gdf.ApplyLineFrame | glyphos-handoff-20251204/freebsd/src/glyph_interpreter.c:286-300 | a line that does not assign a field leaves it alone, and one that does gives it the assigned value |
| Gdf.Untouched | glyphos-handoff-20251204/freebsd/src/glyph_interpreter.c:283-300 | a field no line assigns keeps its default |
| Gdf.LastWins | glyphos-handoff-20251204/freebsd/src/glyph_interpreter.c:283-300 | the last line assigning a field decides its value: a later key overwrites an earlier one |
| Gdf.ParseGdfLines | glyphos-handoff-20251204/freebsd/src/glyph_interpreter.c:264-310 | the loader starts from the defaults, runs every line through the filter and the field parser, and marks the record loaded |
| Activation.ParseCommand | glyphos-handoff-20251204/freebsd/src/glyph_interpreter.c:318-354 | the command parses exactly when its name is non-empty; name and target fit their buffers; a parameter and a target are never both set, and either needs a '(' |
| Activation.SplitCall | glyphos-handoff-20251204/freebsd/src/glyph_interpreter.c:328-338 | the text name(arg) splits at its brackets back into the name and the argument |
| Activation.ParseTargetCall | glyphos-handoff-20251204/freebsd/src/glyph_interpreter.c:328-347 | name(target) with a non-numeric target parses to that name and target and no parameter |
| Activation.ParseParamCall | glyphos-handoff-20251204/freebsd/src/glyph_interpreter.c:328-343 | name(number) parses to that name with parameter atof(number) and no target |
| Activation.ParseBareName | glyphos-handoff-20251204/freebsd/src/glyph_interpreter.c:328-332 | a bare name parses to that name with neither parameter nor target |
| Activation.ResonateExample | glyphos-handoff-20251204/freebsd/src/glyph_interpreter.c:737-739 | the interpreter's self-test command resonate(2.5) parses to resonate with parameter 2.5 |
| Activation.ScriptSpec | glyphos-handoff-20251204/freebsd/src/glyph_interpreter.c:357-373 | the sequence parser keeps at most max commands: the first max named ones in order, all of them when they fit |
| Activation.ScriptNames | glyphos-handoff-20251204/freebsd/src/glyph_interpreter.c:357-373 | every command kept from a script has a non-empty name |
| Activation.ParseSequence | glyphos-handoff-20251204/freebsd/src/glyph_interpreter.c:357-373 | the strtok loop of parse_activation_sequence computes the script specified above |
| GlyphRuntime.FindGlyph | glyphos-handoff-20251204/freebsd/src/glyph_interpreter.c:380-387 | the result is the first registered glyph with that id, and none is returned only when no glyph has it |
| GlyphRuntime.TracedAllSpec | glyphos-handoff-20251204/freebsd/src/glyph_interpreter.c:145-157 | with tracing off the log is unchanged; with it on the entries are appended in order until 1024 are held |
| GlyphRuntime.TracedAllAppend | glyphos-handoff-20251204/freebsd/src/glyph_interpreter.c:145-157 | two runs of add_trace equal one run over both lists |
| GlyphRuntime.TracedAllBounded | glyphos-handoff-20251204/freebsd/src/glyph_interpreter.c:145-157 | the trace log never exceeds 1024 entries and only grows at its end |
| GlyphRuntime.RunFails | glyphos-handoff-20251204/freebsd/src/glyph_interpreter.c:413-425 | the inheritance walk fails exactly at depth 32 or for an unregistered id, and a failure changes neither state nor log |
| GlyphRuntime.RunParentsKeeps | glyphos-handoff-20251204/freebsd/src/glyph_interpreter.c:435-446 | parents feed only resonance and entanglement into the child's state |
| GlyphRuntime.RunLocal | glyphos-handoff-20251204/freebsd/src/glyph_interpreter.c:427-457 | a successful walk ends with the glyph's own magnitude, phase and coherence effect, records depth and id, and traces the local step last |
| GlyphRuntime.RunResonance | glyphos-handoff-20251204/freebsd/src/glyph_interpreter.c:413-460 | with non-negative resonances the walk never lowers resonance, and a success adds at least the glyph's own |
| GlyphRuntime.ExecuteWithoutParam | glyphos-handoff-20251204/freebsd/src/glyph_interpreter.c:467-516 | the parameter commands do nothing without a parameter, and an unknown command does nothing |
| GlyphRuntime.ExecuteEntangle | glyphos-handoff-20251204/freebsd/src/glyph_interpreter.c:476-487 | entangle adds the target's coefficient and a fifth of its resonance, and nothing for an unknown target |
| GlyphRuntime.StabilizeBounds | glyphos-handoff-20251204/freebsd/src/glyph_interpreter.c:500-503 | stabilize changes only coherence, never above 100 and never lowering one at most 100 |
| GlyphRuntime.DecayLowers | glyphos-handoff-20251204/freebsd/src/glyph_interpreter.c:504-508 | decay by a fraction in [0, 1] never raises magnitude and lowers coherence by at most 10 |
| GlyphRuntime.Registry.constructor | glyphos-handoff-20251204/freebsd/src/glyph_interpreter.c:118 | the registry starts with no glyphs and no trace entries |
| GlyphRuntime.Registry.Register | glyphos-handoff-20251204/freebsd/src/glyph_interpreter.c:390-406 | registration fails exactly when 256 glyphs are held; a known id succeeds without storing, a new one is appended; ids stay distinct |
| GlyphRuntime.Registry.AddTrace | glyphos-handoff-20251204/freebsd/src/glyph_interpreter.c:145-157 | one entry under the truncated id is appended while tracing is on and the log has room |
| GlyphRuntime.Registry.RunInheritance | glyphos-handoff-20251204/freebsd/src/glyph_interpreter.c:413-460 | the result and state are those of the inheritance walk, and the log receives its entries through add_trace |
| GlyphRuntime.Registry.InheritParents | glyphos-handoff-20251204/freebsd/src/glyph_interpreter.c:432-446 | the parent loop runs each parent one level deeper and folds in the successful ones |
| GlyphRuntime.Registry.InheritFrom | glyphos-handoff-20251204/freebsd/src/glyph_interpreter.c:436-445 | one parent runs on a copy of the state and, if it succeeds, its resonance and entanglement are folded in and traced |
| GlyphRuntime.Registry.ExecuteCommand | glyphos-handoff-20251204/freebsd/src/glyph_interpreter.c:467-516 | the state changes as the command semantics say and one entry is traced under the glyph's id |
| CString.KeepFirstKeeps | glyphos-handoff-20251204/freebsd/src/glyph_interpreter.c:184-192 | a property every conversion result has holds of every value the capped loop keeps |
| Gdf.ParentTokenShape | glyphos-handoff-20251204/freebsd/src/glyph_interpreter.c:185-190 | a kept parent id is non-empty, under 64 characters, starts with a non-space and is made of the token's characters |
| GlyphRuntime.RunParentsResonance | glyphos-handoff-20251204/freebsd/src/glyph_interpreter.c:432-446 | with non-negative resonances the parent loop never lowers resonance |
| FuzzGdf.Text | glyphos-handoff-20251204/freebsd/ci/fuzz_gdf.c:89 | the copied bytes are read one for one as characters |
| FuzzGdf.CText | glyphos-handoff-20251204/freebsd/ci/fuzz_gdf.c:87-90 | the parser sees the input up to its first NUL byte, and all of it when there is none |
| FuzzGdf.Entry | glyphos-handoff-20251204/freebsd/ci/fuzz_gdf.c:108-121 | a line is skipped exactly when its trimmed text is blank, a '#' comment or has no ':'; otherwise it splits at its first ':' |
| FuzzGdf.FoldKeeps | glyphos-handoff-20251204/freebsd/ci/fuzz_gdf.c:99-126 | a record component that no line sets keeps its starting value |
| FuzzGdf.FoldLastWins | glyphos-handoff-20251204/freebsd/ci/fuzz_gdf.c:99-126 | the last line that sets a record component decides its value |
| FuzzGdf.FoldPreserves | glyphos-handoff-20251204/freebsd/ci/fuzz_gdf.c:99-126 | an invariant every line step keeps holds after the whole loop |
| FuzzGdf.StopsAtNul | glyphos-handoff-20251204/freebsd/ci/fuzz_gdf.c:87-101 | nothing after the first NUL byte affects the parsed record |
| FuzzGdf.ApplyLineId | glyphos-handoff-20251204/freebsd/ci/fuzz_gdf.c:53-57 | a line that does not assign glyph_id leaves the id alone; one that does sets it to the trimmed value cut to 63 characters |
| FuzzGdf.IdUntouched | glyphos-handoff-20251204/freebsd/ci/fuzz_gdf.c:92-126 | without a line that sets glyph_id the id stays empty |
| FuzzGdf.IdLastWins | glyphos-handoff-20251204/freebsd/ci/fuzz_gdf.c:92-126 | the last line that sets glyph_id decides the id |
| FuzzGdf.ParseBounded | glyphos-handoff-20251204/freebsd/ci/fuzz_gdf.c:53-78 | whatever the input, every string field of the parsed record fits its buffer with room for the NUL |
| FuzzGdf.Rejections | glyphos-handoff-20251204/freebsd/ci/fuzz_gdf.c:82-84 | empty or oversized input is rejected, and so is input in which no line sets glyph_id |
| FuzzGdf.ParseLine | glyphos-handoff-20251204/freebsd/ci/fuzz_gdf.c:107-123 | one pass of the loop body applies the line filter and the field setter |
| FuzzGdf.WalkLines | glyphos-handoff-20251204/freebsd/ci/fuzz_gdf.c:96-126 | the newline-cutting loop visits exactly the lines of the text, in order, a final newline adding none |
| FuzzGdf.ParseBuffer | glyphos-handoff-20251204/freebsd/ci/fuzz_gdf.c:81-148 | the return value is 0 exactly when the size is acceptable and the parsed record passes validation, and -1 otherwise |
| FuzzMutate.Bit | glyphos-handoff-20251204/freebsd/ci/fuzz_gdf_standalone.c:139 | 1 << k for k < 8 is a single-bit mask |
| FuzzMutate.MutateSize | glyphos-handoff-20251204/freebsd/ci/fuzz_gdf_standalone.c:132-171 | every edit keeps the buffer's capacity, and a size between 1 and max_size - 1 stays in that range |
| FuzzMutate.BitFlip | glyphos-handoff-20251204/freebsd/ci/fuzz_gdf_standalone.c:136-141 | the bit flip changes exactly one bit of one live byte and keeps the size |
| FuzzMutate.ByteFlip | glyphos-handoff-20251204/freebsd/ci/fuzz_gdf_standalone.c:142-147 | the byte flip inverts one live byte and changes nothing else |
| FuzzMutate.Replace | glyphos-handoff-20251204/freebsd/ci/fuzz_gdf_standalone.c:163-168 | the replacement sets one live byte to rand() % 256 and changes nothing else |
| FuzzMutate.InsertShape | glyphos-handoff-20251204/freebsd/ci/fuzz_gdf_standalone.c:148-155 | the insertion keeps the bytes before the position, puts the new byte there and moves the live bytes after it up by one |
| FuzzMutate.DeleteShape | glyphos-handoff-20251204/freebsd/ci/fuzz_gdf_standalone.c:156-162 | the deletion keeps the bytes before the position and moves the live bytes after it down by one, leaving the last byte behind |
| FuzzMutate.DeleteUndoesInsert | glyphos-handoff-20251204/freebsd/ci/fuzz_gdf_standalone.c:148-162 | deleting at the position of an insertion gives back the live bytes |
| FuzzMutate.NoEdit | glyphos-handoff-20251204/freebsd/ci/fuzz_gdf_standalone.c:133-170 | choices 5 to 9, and an edit whose size guard fails, leave buffer and size alone |
| FuzzMutate.MutateBuffer | glyphos-handoff-20251204/freebsd/ci/fuzz_gdf_standalone.c:132-171 | the in-place mutator leaves the array and the size that the edit rules specify |
| FuzzMutate.InsertByte | glyphos-handoff-20251204/freebsd/ci/fuzz_gdf_standalone.c:148-155 | the in-place insertion produces the specified inserted buffer |
| FuzzMutate.DeleteByte | glyphos-handoff-20251204/freebsd/ci/fuzz_gdf_standalone.c:156-162 | the in-place deletion produces the specified shortened buffer |
| FuzzMutate.ShiftUp | glyphos-handoff-20251204/freebsd/ci/fuzz_gdf_standalone.c:151 | memmove up by one: bytes up to the position stay, live bytes move up one, the rest stay |
| FuzzMutate.ShiftDown | glyphos-handoff-20251204/freebsd/ci/fuzz_gdf_standalone.c:159 | memmove down by one: bytes before the position stay, live bytes move down one, the rest stay |
| SecurityUtils.NoControls | glyphos-handoff-20251204/freebsd/src/security_utils.c:107-111 | true exactly when no character is a control character |
| SecurityUtils.IsSafeFilename | glyphos-handoff-20251204/freebsd/src/security_utils.c:91-114 | a name is safe exactly when it is non-empty, has no '/' or '\', does not start with '.', and has no control character |
| SecurityUtils.AllIdChars | glyphos-handoff-20251204/freebsd/src/security_utils.c:162-166 | true exactly when every character is a letter, digit, '_' or '-' |
| SecurityUtils.ValidGlyphId | glyphos-handoff-20251204/freebsd/src/security_utils.c:149-169 | an id is valid exactly when it has 1 to 64 characters, each a letter, digit, '_' or '-' |
| SecurityUtils.ValidIdIsSafe | glyphos-handoff-20251204/freebsd/src/security_utils.c:91-169 | every valid glyph id is a safe file name |
| SecurityUtils.ValidateRangeInt | glyphos-handoff-20251204/freebsd/src/security_utils.c:199-207 | the result is 0 exactly when min <= value <= max, and -1 otherwise |
| SecurityUtils.StrNLen | glyphos-handoff-20251204/freebsd/src/security_utils.c:124 | the characters before the first NUL, capped at max |
| SecurityUtils.SanitizedSpec | glyphos-handoff-20251204/freebsd/src/security_utils.c:119-144 | no control character other than newline and tab is left before the terminator, other characters are untouched, nothing past the string changes, and a NUL lies within max characters |
| SecurityUtils.SanitizeIdempotent | glyphos-handoff-20251204/freebsd/src/security_utils.c:119-144 | sanitising a sanitised buffer changes nothing |
| SecurityUtils.SanitizeString | glyphos-handoff-20251204/freebsd/src/security_utils.c:119-144 | the in-place loop leaves the sanitised buffer and returns 0 |
| SecurityUtils.HasPair | glyphos-handoff-20251204/freebsd/src/security_utils.c:28-30 | strstr for a two-character needle: true exactly when the pair occurs somewhere |
| SecurityUtils.ValidIdIsSafeVaultName | glyphos-handoff-20251204/freebsd/src/security_utils.c:28-30 | a valid glyph id passes the traversal test of validate_vault_path |
| SecurityUtils.LastSlash | glyphos-handoff-20251204/freebsd/src/security_utils.c:50 | strrchr finds the last '/', and none means there is no '/' |
| SecurityUtils.NameRejectedFirst | glyphos-handoff-20251204/freebsd/src/security_utils.c:28-33 | a name containing "..", "//" or a leading '/' is refused whatever the filesystem holds |
| SecurityUtils.AcceptedInVault | glyphos-handoff-20251204/freebsd/src/security_utils.c:16-86 | an accepted path passed the name test in a resolvable vault and is the truncation of a path inside the resolved vault |
| SecurityUtils.NewFileAccepted | glyphos-handoff-20251204/freebsd/src/security_utils.c:43-70 | a safe name for a file that does not exist yet, in a resolvable vault and directory, is accepted as the vault joined with the name |
| SecurityUtils.Seen | glyphos-handoff-20251204/freebsd/src/security_utils.c:252-264 | the front-to-back scan finds an id exactly when it is in the list |
| SecurityUtils.InheritanceContext.constructor | glyphos-handoff-20251204/freebsd/src/security_utils.c:212-221 | the visited list starts empty |
| SecurityUtils.InheritanceContext.IsVisited | glyphos-handoff-20251204/freebsd/src/security_utils.c:252-264 | 1 exactly when some recorded id equals the one asked about |
| SecurityUtils.InheritanceContext.Visit | glyphos-handoff-20251204/freebsd/src/security_utils.c:226-247 | the id is appended and 0 returned exactly when it was not recorded and fewer than 32 are held; otherwise -1 and nothing changes; ids stay distinct |
| Metrics.Lookup | glyphos-handoff-20251204/freebsd/src/metrics.c:29-48 | the search returns the first series with that name, type and labels, and none only when no series matches |
| Metrics.FindOrCreateSpec | glyphos-handoff-20251204/freebsd/src/metrics.c:23-68 | the series returned answers to the name, type and labels; an existing one leaves the registry alone, a new one is appended, and nothing is created once 128 exist (corrected lookup by the stored 127-character name; see Findings) |
| Metrics.DistinctKeys | glyphos-handoff-20251204/freebsd/src/metrics.c:31-46 | lookups that differ in type or labels never return the same series |
| Metrics.FindOrCreateKeeps | glyphos-handoff-20251204/freebsd/src/metrics.c:50-63 | find-or-create keeps the series unique by name, type and labels, each within its buffers, and at most 128 of them (corrected lookup by the stored 127-character name; see Findings); as written this fails for long names, see Metrics.LongNameDuplicates |
| Metrics.Counted | glyphos-handoff-20251204/freebsd/src/metrics.c:148-152 | every bucket whose bound the value does not exceed gains one; the others and all bounds stay |
| Metrics.RecordSpec | glyphos-handoff-20251204/freebsd/src/metrics.c:74-160 | an update fails exactly when the series is missing and 128 exist, and then changes nothing; otherwise only the found or new series changes (corrected lookup by the stored 127-character name; see Findings) |
| Metrics.UpdateValues | glyphos-handoff-20251204/freebsd/src/metrics.c:79-124 | a counter grows by exactly its amount, a gauge set overwrites, a gauge add adds, and name, type and labels stay |
| Metrics.ObserveSpec | glyphos-handoff-20251204/freebsd/src/metrics.c:131-160 | an observation counts once and adds its value to the sum; bounds are taken only on first use; each bucket at or above the value gains one |
| Metrics.CumulativeBuckets | glyphos-handoff-20251204/freebsd/src/metrics.c:148-152 | with ascending bounds the bucket counts stay non-decreasing from one bucket to the next |
| Metrics.LongNameNeverFound | glyphos-handoff-20251204/freebsd/src/metrics.c:31 | as written, a name of 128 characters or more never matches its own stored, truncated copy |
| Metrics.LongNameAppends | glyphos-handoff-20251204/freebsd/src/metrics.c:29-63 | as written, every call with a name of 128 characters or more appends a new series while fewer than 128 exist |
| Metrics.LongNameDuplicates | glyphos-handoff-20251204/freebsd/src/metrics.c:29-63 | as written, two calls with the same long name leave two identical series, so the series are no longer unique by name, type and labels |
| Metrics.CreatedIsFound | glyphos-handoff-20251204/freebsd/src/metrics.c:23-68 | with the stored form as key, a second call finds the series the first created and changes nothing |
| Metrics.Registry.constructor | glyphos-handoff-20251204/freebsd/src/metrics.c:12-16 | the registry starts with no series |
| Metrics.Registry.FindOrCreateMetric | glyphos-handoff-20251204/freebsd/src/metrics.c:23-68 | the scan and the append give the find-or-create result, keeping series unique and the registry bounded (corrected lookup by the stored 127-character name; see Findings) |
| Metrics.Registry.Apply | glyphos-handoff-20251204/freebsd/src/metrics.c:74-160 | every update call finds or creates its series and then changes only that series' value (corrected lookup by the stored 127-character name; see Findings) |
| Metrics.Registry.ObserveMetric | glyphos-handoff-20251204/freebsd/src/metrics.c:138-155 | the bucket-initialising and bucket-counting loops give the specified observation |
| Metrics.Registry.CounterIncBy | glyphos-handoff-20251204/freebsd/src/metrics.c:74-84 | the counter grows by the value truncated to an unsigned integer |
| Metrics.Registry.CounterInc | glyphos-handoff-20251204/freebsd/src/metrics.c:70-72 | the counter grows by one |
| Metrics.Registry.CounterIncLabels | glyphos-handoff-20251204/freebsd/src/metrics.c:86-97 | the counter with these labels grows by one |
| Metrics.Registry.SetGauge | glyphos-handoff-20251204/freebsd/src/metrics.c:99-109 | the gauge takes the value |
| Metrics.Registry.AddGauge | glyphos-handoff-20251204/freebsd/src/metrics.c:119-129 | the gauge grows by delta |
| Metrics.Registry.GaugeInc | glyphos-handoff-20251204/freebsd/src/metrics.c:111-113 | the gauge grows by one |
| Metrics.Registry.GaugeDec | glyphos-handoff-20251204/freebsd/src/metrics.c:115-117 | the gauge shrinks by one |
| Metrics.Registry.HistogramObserve | glyphos-handoff-20251204/freebsd/src/metrics.c:131-160 | the histogram series records the observation as specified |
| Dynamics.RoundTrip | runtime/dynamics/engine.py:27-48 | from_dict after to_dict keeps every attribute, and exporting again gives the same dictionary |
| Dynamics.ExportKeepsOthers | runtime/dynamics/engine.py:36-37 | metadata keys other than the three mirrored fields pass through to_dict unchanged |
| Dynamics.ClampRate | runtime/dynamics/engine.py:63 | the kept decay rate lies in [0, 1], equals the given rate inside that range and the nearer end outside it |
| Dynamics.PowUnit | runtime/dynamics/engine.py:144 | a whole power of a number in [0, 1] stays in [0, 1] |
| Dynamics.PowAdd | runtime/dynamics/engine.py:144 | powers of the same base multiply by adding exponents |
| Dynamics.DecayFails | runtime/dynamics/engine.py:144 | decay raises exactly for a rate of 1 and a negative time step (zero to a negative power) |
| Dynamics.DecayShrinks | runtime/dynamics/engine.py:129-148 | with a clamped rate and a forward step, non-negative energy stays in [0, energy], and a zero step changes nothing |
| Dynamics.FactorAdd | runtime/dynamics/engine.py:144 | forward decay factors for m and n steps multiply to the factor for m + n |
| Dynamics.DecayCompose | runtime/dynamics/engine.py:129-148 | decaying for m and then n time units is decaying for m + n |
| Dynamics.ActivateSpec | runtime/dynamics/engine.py:65-84 | the glyph activates exactly when its energy reaches the threshold; then the counter grows by one, and nothing else changes |
| Dynamics.StepSpec | runtime/dynamics/engine.py:150-181 | a step fails exactly when its decay does; otherwise activation is judged on the decayed energy, which it keeps, and the step record reports it |
| Dynamics.MergeRefines | runtime/dynamics/engine.py:86-127 | apply_merge_precedence follows the merge rule, recording the parents in merged_from, leader first |
| Dynamics.Glyph.constructor | runtime/dynamics/engine.py:19-25 | a missing metadata dictionary becomes empty and the three fields are read from it with their defaults |
| Dynamics.Glyph.ToDict | runtime/dynamics/engine.py:27-39 | the dictionary holds id, content and the exported metadata |
| Dynamics.Glyph.FromDict | runtime/dynamics/engine.py:41-48 | the glyph built from a dictionary has the state the constructor gives it |
| Dynamics.Engine.constructor | runtime/dynamics/engine.py:54-63 | the engine keeps the threshold and the clamped decay rate |
| Dynamics.Engine.ApplyActivationThreshold | runtime/dynamics/engine.py:65-84 | the glyph is updated in place as activation specifies and returned |
| Dynamics.Engine.ApplyMergePrecedence | runtime/dynamics/engine.py:86-127 | a fresh glyph holding the merged state |
| Dynamics.Engine.ApplyDecay | runtime/dynamics/engine.py:129-148 | the glyph decays in place, and is left untouched where Python raises |
| Dynamics.Engine.Step | runtime/dynamics/engine.py:150-181 | decay then activation in place, with the step record, untouched where Python raises |
| SpuWrapper.RoundTrip | runtime/spu/spu_wrapper.py:34-53 | a glyph survives to_dict and from_dict except its provenance, which comes back empty |
| SpuWrapper.ProvenanceLost | runtime/spu/spu_wrapper.py:34-53 | so a merged glyph with recorded parents does not survive the round trip |
| SpuWrapper.EmptyDict | runtime/spu/spu_wrapper.py:44-53 | missing keys take the constructor's defaults |
| SpuWrapper.MergeRefines | runtime/spu/spu_wrapper.py:59-88 | merge_via_python follows the merge rule exactly, parents leader first |
| MergeSpec.MergeShape | runtime/spu/merge_ref.cpp:53-99 | the leader has at least the other's energy (the first on a tie), its content comes first and it is the first parent; the id derives from the joined content; energy is the sum, counters the maxima |
| MergeSpec.MergeSymmetric | runtime/spu/merge_ref.cpp:58-64 | when the energies differ the order of the arguments does not matter |
| MergeSpec.MergeOrderInsensitive | runtime/spu/merge_ref.cpp:58-99 | whatever the order, energy, counters and the set of parents agree |
| SpuHash.HashLoop | runtime/spu/merge_ref.cpp:38-42 | the accumulator loop computes the fold over the first len bytes |
| SpuHash.MixInjective | runtime/spu/merge_ref.cpp:41 | one mixing step sends different bytes to different states |
| SpuHash.AsciiAgree | spu/sha256.h:44 | the sign-extending fold of the header and the unsigned fold agree on bytes below 0x80 |
| SpuHash.HighByteDisagrees | spu/sha256.h:44 | the byte 0x80 separates the two folds |
| SpuHash.Hex8RoundTrip | runtime/spu/merge_ref.cpp:45-47 | each "%08x" group reads back as its word |
| SpuHash.DigestDecodes | runtime/spu/merge_ref.cpp:45-47 | the first eight digits of a digest are the fold value, so different fold values give different ids |
| SpuHash.HlsFirstWord | glyphos-handoff-20251204/fpga/hls/merge_accel_hls.cpp:64-67 | the first word of the HLS id is the second group the C++ digest prints |
| SpuHash.DigestHasNoNul | spu/sha256.h:48-50 | a digest holds only digit characters, never a NUL |
| SpuHash.DigestsAgreeOnAscii | spu/sha256.h:41-50 | the two C++ ids agree on ASCII content and differ on the byte 0x80 |
| MergeRefCpp.NewGlyph | runtime/spu/merge_ref.cpp:21-30 | the constructed glyph is zeroed and well formed |
| MergeRefCpp.CStrTerminated | runtime/spu/merge_ref.cpp:45 | a string followed by its NUL reads back as itself |
| MergeRefCpp.StrNCpyKeeps | runtime/spu/merge_ref.cpp:97-98 | copying a NUL-terminated 64-byte id with strncpy keeps the id string |
| MergeRefCpp.Sha256Hash | runtime/spu/merge_ref.cpp:36-48 | sha256_hash writes the 64 digits of the unsigned fold over the first len bytes, then a NUL |
| MergeRefCpp.JoinedLayout | runtime/spu/merge_ref.cpp:66-82 | the leader's bytes, " + " and the other's bytes come first, and the rest of the buffer is left as it was |
| MergeRefCpp.JoinedIdReads | runtime/spu/merge_ref.cpp:85 | the id buffer reads back as the digest of the joined content |
| MergeRefCpp.CombineValid | runtime/spu/merge_ref.cpp:66-98 | the merged struct is well formed again |
| MergeRefCpp.CombineRefines | runtime/spu/merge_ref.cpp:66-98 | steps 2 to 6 follow the merge rule's combination for the given leader |
| MergeRefCpp.Merge | runtime/spu/merge_ref.cpp:53-99 | merge leaves the result struct the merge model specifies |
| MergeRefCpp.MergeOrdered | runtime/spu/merge_ref.cpp:66-98 | steps 2 to 6 write the specified combination over the result |
| MergeRefCpp.MergeRefines | runtime/spu/merge_ref.cpp:53-99 | when the joined content fits, merge follows the merge rule with the digest as id and the parents read back as strings |
| MergeReferenceCpp.Sha256Hash | spu/sha256.h:29-51 | sha256_hash writes the 64 digits of the sign-extending fold, then a NUL |
| MergeReferenceCpp.Sha256String | spu/sha256.h:56-61 | sha256_string is the 64 digits of the sign-extending fold |
| MergeReferenceCpp.Merge | spu/merge_reference.cpp:43-91 | merge leaves the result the corrected merge model specifies |
| MergeReferenceCpp.MergeOrdered | spu/merge_reference.cpp:56-90 | steps 2 to 6 write the specified combination over the result (corrected: the id's NUL kept out of content[0]; see Findings) |
| MergeReferenceCpp.NulClobbersContent | spu/merge_reference.cpp:20-21 | as written the id's terminating NUL overwrites the first content byte, so the merged content is lost whenever it does not itself begin with a NUL |
| MergeReferenceCpp.TestMergeLosesLeader | spu/test_merge.cpp:57-73 | on the merge test's own glyphs the content should start with "content2", but as written it starts with a NUL |
| MergeReferenceCpp.CombineRefines | spu/merge_reference.cpp:56-90 | the combination with the NUL kept out of the content follows the merge rule's combination |
| MergeReferenceCpp.MergeRefines | spu/merge_reference.cpp:43-91 | merge, with the NUL kept out of the content, follows the merge rule with the header digest as id |
| MergeReferenceCpp.MergedBelowStep | spu/merge_reference.cpp:105-107 | writing the merge of pair i into slot i extends the merged prefix by one slot |
| MergeReferenceCpp.MergeBatch | spu/merge_reference.cpp:102-108 | slot i becomes the merge of pairs 2i and 2i+1 for each i below count, and nothing else changes (corrected: the id's NUL kept out of content[0]; see Findings); the parallel loop is run in order |
| MergeReferenceCpp.MergeConserves | spu/test_merge.cpp:57-73 | energy is conserved and the stronger glyph's content comes first (corrected: the id's NUL kept out of content[0]; see Findings); as written this holds only from the second byte on, see MergeReferenceCpp.MergeConservesAsWritten |
| MergeReferenceCpp.MergeConservesAsWritten | spu/test_merge.cpp:57-73 | as written, energy is conserved, the content's first byte is NUL and the rest of the content is the corrected merge's |
| MergeReferenceCpp.CombineLeads | spu/merge_reference.cpp:56-73 | the merged content is the leader's, the separator and the other's |
| GlyphSpu.HexChar | glyphos-handoff-20251204/runtime/rust/glyph-spu/src/main.rs:59 | every digit is a lower-case hexadecimal character |
| GlyphSpu.Hex | glyphos-handoff-20251204/runtime/rust/glyph-spu/src/main.rs:59 | a number prints as at least one digit |
| GlyphSpu.HexRoundTrip | glyphos-handoff-20251204/runtime/rust/glyph-spu/src/main.rs:59 | printing in hexadecimal is undone by reading the digits back |
| GlyphSpu.LeadingZeros | glyphos-handoff-20251204/runtime/rust/glyph-spu/src/main.rs:59 | zero padding does not change the value read back |
| GlyphSpu.Format064xRoundTrip | glyphos-handoff-20251204/runtime/rust/glyph-spu/src/main.rs:55-59 | the printed id gives the clock reading back, so distinct readings give distinct ids |
| GlyphSpu.Format064xLength | glyphos-handoff-20251204/runtime/rust/glyph-spu/src/main.rs:55-59 | a 128-bit nanosecond reading always prints as exactly 64 characters |
| GlyphSpu.MergeRefines | glyphos-handoff-20251204/runtime/rust/glyph-spu/src/main.rs:41-75 | merge_glyphs follows the merge rule, with an id that does not depend on the content |
| GlyphSpu.IdFromClock | glyphos-handoff-20251204/runtime/rust/glyph-spu/src/main.rs:55-59 | merges at the same instant share their id whatever they merge, and merges at different instants get different ids |
| GlyphSpu.OffloadParents | glyphos-handoff-20251204/runtime/rust/glyph-spu/src/main.rs:77-92 | the response reports the parents in request order: they are the rule's leader-first parents exactly when glyph1 leads or the ids are equal |
| MergeHls.HashContent | glyphos-handoff-20251204/fpga/hls/merge_accel_hls.cpp:47-68 | the 256-step loop folds the bytes below len and writes the sixteen masked words of the fold |
| MergeHls.HashWordsDecode | glyphos-handoff-20251204/fpga/hls/merge_accel_hls.cpp:64-67 | every id word gives the fold value back once its mask is removed |
| MergeHls.HashIgnoresTail | glyphos-handoff-20251204/fpga/hls/merge_accel_hls.cpp:55-61 | bytes from len on do not reach the id |
| MergeHls.WriteNext | glyphos-handoff-20251204/fpga/hls/merge_accel_hls.cpp:105-108 | writing just past a prefix of a zero-padded word extends the prefix |
| MergeHls.CopyPrimary | glyphos-handoff-20251204/fpga/hls/merge_accel_hls.cpp:96-102 | COPY_PRIMARY leaves the primary's first min(content_len, 256) bytes at the start of a zeroed word |
| MergeHls.BuildContent | glyphos-handoff-20251204/fpga/hls/merge_accel_hls.cpp:92-118 | the copy loops leave the joined bytes cut at 256 over a zeroed word, and pos is their length |
| MergeHls.MergeCore | glyphos-handoff-20251204/fpga/hls/merge_accel_hls.cpp:76-143 | merge_core picks the leader by energy, builds the content, hashes it, wraps the energy sum, takes maxima and records the parents as specified |
| MergeHls.FixedPointOrder | glyphos-handoff-20251204/fpga/hls/merge_accel_hls.cpp:17 | raw Q16.16 bits order and add as the fixed-point values do |
| MergeHls.CombineContent | glyphos-handoff-20251204/fpga/hls/merge_accel_hls.cpp:111-121 | the live content is the joined content cut at 256, the id hashes exactly those bytes, and the rest of the word is zero |
| MergeHls.ContentCut | glyphos-handoff-20251204/fpga/hls/merge_accel_hls.cpp:111-121 | the live content is a prefix of the rule's content, equal to it exactly when the rule's content fits in 256 bytes |
| MergeHls.EnergyWraps | glyphos-handoff-20251204/fpga/hls/merge_accel_hls.cpp:125 | the merged energy is the fixed-point sum exactly when the raw sum is below 2^32; past that it wraps below both inputs |
| MergeHls.MergeRefines | glyphos-handoff-20251204/fpga/hls/merge_accel_hls.cpp:76-143 | with no truncation and no wrap-around, merge_core follows the merge rule, parents leader first |

## Left out

- Floating point: every `double`, `float` and `f64` is a `real`. NaN, infinities and rounding are not modelled. So the NaN/Inf checks of `validate_range_double` are out, and so is the fuzz acceptance of NaN fields.
- `sqrt`, `atan2`, `cos` and `pow` are the fields of a `Libm` parameter, and `atof`/`atoi` are parameters. The only fact the proofs assume of them is that square roots are non-negative.
- Printing and drivers are output, not logic: `substrate_print_status`, `print_trace_log`, `print_usage`, every `main`, the `--test` drivers and the `fprintf` error messages.
- File and clock access in the interpreter is out: `fopen`/`fgets` in `parse_gdf_file`, `load_vault_directory` and `get_timestamp`/`localtime`. The per-line logic of the loader is modelled (`Gdf.ParseGdfLines`). A trace entry holds the glyph id, the operation and the resulting state. It does not hold the timestamp or the description text.
- `glyph_activate` and the vault loader are drivers over the modelled operations and are not modelled.
- NULL-pointer arguments are not modelled. Every pointer the C code checks for NULL is a value in the model.
- `malloc` failure in the fuzz targets is not modelled.
- FuzzMutate.MutateBuffer: `rand()` is not modelled. The mutation choice, the position and the byte are parameters, so the order in which the fuzz target draws them is not captured.
- `validate_vault_path`: `realpath` and `access` are a file-system parameter. Only the string checks and the prefix test are modelled.
- SecurityUtils.InheritanceContext.Visit: visited ids are stored as string values. The source stores pointers into the caller's strings, and that aliasing is not modelled.
- The metrics mutex is not modelled, and the registry is sequential. Also out: `gettimeofday` timestamps, `metrics_export_prometheus` and the metrics HTTP server. The C union of counter, gauge and histogram becomes separate fields, and 64-bit counter wrap-around is not modelled.
- Metrics.Registry.FindOrCreateMetric: looks a name up by its stored form, cut to 127 characters, where line 31 compares the caller's full name. So the registry, every update call built on it (Metrics.Registry.Apply, Metrics.RecordSpec), the lookup's specification (Metrics.FindOrCreateSpec) and the uniqueness of its series (Metrics.FindOrCreateKeeps) follow the corrected lookup. The code as written is modelled by Metrics.FindOrCreateAsWritten; see Findings.
- Metrics.Registry.FindOrCreateMetric: requires at most 8 labels. With more, line 61 copies 8 labels but stores the larger `label_count`, and later comparisons read past the label array.
- Metrics.Registry.HistogramObserve: requires at most 16 buckets. Lines 139-145 store a larger `bucket_count` unchecked, and the loop at line 148 then runs past the 16-entry bucket array.
- Metrics.Registry.CounterIncBy: requires `value > -1`. The `(unsigned long)` cast at line 79 is undefined behaviour for values at or below -1; above that it truncates toward zero, which the model does.
- Dynamics.Glyph.constructor: requires that the `energy`, `activation_count` and `last_update_time` metadata entries have the types the code reads. Python's dynamic typing is not modelled, nor is sharing of the metadata dictionary between glyphs.
- Real SHA-256 (`hashlib`) in `engine.py` and `spu_wrapper.py` is a function parameter, so ids are only as distinct as that function makes them.
- MergeRefCpp.Merge: requires the merged content to fit in 256 bytes. The source has no check there, and a longer merge overruns the buffer (undefined behaviour). The result struct is a value, so aliasing of `result` with an input is not modelled.
- MergeReferenceCpp.Merge: requires the merged content to fit in 256 bytes, for the same reason as MergeRefCpp.Merge. It also follows the corrected merge, which keeps the id's NUL out of `content[0]` (see Findings), and so does every member built on it. The code as written is MergeReferenceCpp.MergeAsWritten.
- MergeReferenceCpp.MergeOrdered: writes the corrected steps 2 to 6, in which `content[0]` keeps the merged content's first byte. As written, sprintf's NUL lands there (MergeReferenceCpp.NulClobbersContent).
- MergeReferenceCpp.MergeBatch: every slot holds the corrected merge. The `#pragma omp parallel for` at spu/merge_reference.cpp:104 is modelled as a sequential loop. The iterations write distinct slots and read only the input pairs, so the order does not change the result, but the threads themselves are not modelled.
- MergeReferenceCpp.MergeConserves: "the stronger content first" is stated for the corrected merge. As written, the first content byte is NUL and test 3's search for "content2" fails (MergeReferenceCpp.TestMergeLosesLeader). MergeReferenceCpp.MergeConservesAsWritten states what does hold: energy is conserved and the content agrees from the second byte on.
- MergeHls.MergeCore: requires that the separator fits. The write of " + " at lines 105-107 is not guarded by `pos < 256`, and a primary longer than 253 bytes writes past the content word.
- MergeHls.MergeRefines: stated only for merges without truncation or energy wrap-around. Outside that range, `MergeHls.ContentCut` and `MergeHls.EnergyWraps` state what the core does instead.
- The HLS pragmas are not modelled, and neither are the `merge_accel` and `merge_accel_parallel` stream kernels. `spu/merge_hls.cpp` is not part of this model: its `sha256_unit` is an incomplete placeholder, and its `merge_kernel` repeats `merge_core`.
- Rust `glyph-spu`: the u128 nanosecond clock is a parameter, `f64` is `real`, and the axum routing and the `glyphd` service are not modelled.
- Not part of this model:
  - the Python CLI (`runtime/cli`), whose write and read paths disagree on the file layout;
  - the pybind11 bindings and `setup.py`;
  - the renderer;
  - the benchmarks, the timing code in `merge_ref.cpp`'s `main` and `spu/test_merge.cpp`;
  - the CI scripts.

## Findings

| source | as written | input that shows it | evidently intended | confidence | as-written member | corrected member |
|---|---|---|---|---|---|---|
| glyphos-handoff-20251204/freebsd/src/metrics.c:31 | a new metric's name is stored cut to 127 characters (line 57), but lookups compare the full requested name with that stored copy | any name of 128 characters or more: every call misses the existing entry and creates another one, until the table is full | look up by the name as it is stored, so a long name finds its own entry | not executed | Metrics.LongNameDuplicates | Metrics.CreatedIsFound |
| spu/merge_reference.cpp:20 | `id` is 64 bytes, but the `sprintf` in spu/sha256.h:48 writes 64 digits and a NUL, so the NUL lands in `content[0]` after the content has been written | the test's glyphs "content1" (energy 2) and "content2" (energy 3): the merged content starts with a NUL instead of "content2" | an id buffer with room for the terminator, so the content keeps its first byte | not executed | MergeReferenceCpp.TestMergeLosesLeader | MergeReferenceCpp.MergeRefines |
