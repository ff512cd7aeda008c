/**
 * The interpreter's runtime: the bounded glyph registry with its trace log,
 * the depth-bounded inheritance walk over parent glyphs, and the effect of
 * each activation command on a field state.
 */
module GlyphRuntime {
  import opened CString
  import opened CLib
  import opened Gdf
  import opened Activation

  const MaxGlyphs: nat := 256
  const MaxInheritanceDepth: nat := 32
  const MaxTraceEntries: nat := 1024

  /** The field state an activation evolves. */
  datatype FieldState = FieldState(
    resonance: real,
    magnitude: real,
    phase: real,
    coherence: int,
    entanglement: real,
    depth: int,
    activeGlyph: string)

  /** What a trace entry reports; its formatted text and timestamp are not modelled. */
  datatype Operation = InheritedFrom(parent: string) | AppliedLocal | Executed(command: Command)

  datatype TraceEntry = TraceEntry(glyphId: string, op: Operation, state: FieldState)

  /** find_glyph: the first registered glyph whose id equals `id`. */
  function FindGlyph(gs: seq<GlyphDefinition>, id: string): (r: Option<nat>)
    ensures r.Some? ==> r.value < |gs| && gs[r.value].glyphId == id &&
                        forall j :: 0 <= j < r.value ==> gs[j].glyphId != id
    ensures r.None? <==> forall j :: 0 <= j < |gs| ==> gs[j].glyphId != id
    decreases |gs|
  {
    if |gs| == 0 then None
    else if gs[0].glyphId == id then Some(0)
    else match FindGlyph(gs[1..], id)
      case None => None
      case Some(k) => Some(k + 1)
  }

  /** Registered ids are pairwise distinct. */
  ghost predicate DistinctIds(gs: seq<GlyphDefinition>) {
    forall i, j :: 0 <= i < j < |gs| ==> gs[i].glyphId != gs[j].glyphId
  }

  /** add_trace on a log: the entry is appended while tracing is on and fewer than 1024 are held. */
  function Traced(ts: seq<TraceEntry>, enabled: bool, e: TraceEntry): seq<TraceEntry> {
    if !enabled || |ts| >= MaxTraceEntries then ts else ts + [e]
  }

  /** A run of add_trace calls. */
  function TracedAll(ts: seq<TraceEntry>, enabled: bool, es: seq<TraceEntry>): seq<TraceEntry>
    decreases |es|
  {
    if |es| == 0 then ts else TracedAll(Traced(ts, enabled, es[0]), enabled, es[1..])
  }

  /**
   * What a run of add_trace calls leaves: nothing new when tracing is off;
   * otherwise the entries are appended in order until the log holds 1024.
   */
  lemma {:induction false} TracedAllSpec(ts: seq<TraceEntry>, enabled: bool, es: seq<TraceEntry>)
    requires |ts| <= MaxTraceEntries
    ensures !enabled ==> TracedAll(ts, enabled, es) == ts
    ensures enabled ==> TracedAll(ts, enabled, es) == (ts + es)[..Min(MaxTraceEntries, |ts| + |es|)]
    decreases |es|
  {
    if |es| > 0 {
      var ts1 := Traced(ts, enabled, es[0]);
      TracedAllSpec(ts1, enabled, es[1..]);
      if enabled {
        if |ts| < MaxTraceEntries {
          assert ts1 + es[1..] == ts + es;
        } else {
          assert (ts + es)[..MaxTraceEntries] == ts;
        }
      }
    }
  }

  /** Two runs of add_trace calls are one run over both lists. */
  lemma {:induction false} TracedAllAppend(ts: seq<TraceEntry>, enabled: bool, a: seq<TraceEntry>, b: seq<TraceEntry>)
    ensures TracedAll(TracedAll(ts, enabled, a), enabled, b) == TracedAll(ts, enabled, a + b)
    decreases |a|
  {
    if |a| > 0 {
      TracedAllAppend(Traced(ts, enabled, a[0]), enabled, a[1..], b);
      assert (a + b)[1..] == a[1..] + b;
    } else {
      assert a + b == b;
    }
  }

  /** A run of add_trace calls never pushes the log past 1024 entries. */
  lemma {:induction false} TracedAllBounded(ts: seq<TraceEntry>, enabled: bool, es: seq<TraceEntry>)
    requires |ts| <= MaxTraceEntries
    ensures |TracedAll(ts, enabled, es)| <= MaxTraceEntries
    ensures ts <= TracedAll(ts, enabled, es)
    decreases |es|
  {
    if |es| > 0 {
      TracedAllBounded(Traced(ts, enabled, es[0]), enabled, es[1..]);
    }
  }

  // ---------------------------------------------------------------------
  // The inheritance walk

  /** The outcome of glyph_run_inheritance: success, the state afterwards and the entries it traced. */
  datatype Outcome = Outcome(ok: bool, state: FieldState, log: seq<TraceEntry>)

  /** The glyph's own properties applied to the state once its parents are done. */
  function Local(s: FieldState, g: GlyphDefinition): FieldState {
    s.(resonance := s.resonance + g.resonanceFreq,
       magnitude := s.magnitude * g.fieldMagnitude,
       coherence := CDiv(s.coherence + g.coherence, 2),
       phase := s.phase + g.phaseOffset,
       entanglement := s.entanglement * g.entanglementCoeff)
  }

  /** What a successful parent adds to the child's state. */
  function Inherit(s: FieldState, parent: FieldState): FieldState {
    s.(resonance := s.resonance + parent.resonance * 0.5,
       entanglement := s.entanglement + parent.entanglement * 0.3)
  }

  /**
   * glyph_run_inheritance: fail at depth 32 or for an unknown id; otherwise
   * record depth and active glyph, run the parents depth first, then apply
   * the glyph's own fields.
   */
  function Run(gs: seq<GlyphDefinition>, id: string, s: FieldState, depth: nat): Outcome
    decreases MaxInheritanceDepth - depth, 1, 0
  {
    if depth >= MaxInheritanceDepth then Outcome(false, s, [])
    else match FindGlyph(gs, id)
      case None => Outcome(false, s, [])
      case Some(k) =>
        var s0 := s.(depth := depth, activeGlyph := Truncate(id, MaxGlyphIdLen));
        var p := RunParents(gs, id, gs[k].parents, 0, s0, depth);
        var s1 := Local(p.state, gs[k]);
        Outcome(true, s1, p.log + [TraceEntry(Truncate(id, MaxGlyphIdLen), AppliedLocal, s1)])
  }

  /** What one parent contributes: its own entries, then the child's inheritance entry when it succeeded. */
  function ParentStep(gs: seq<GlyphDefinition>, id: string, parent: string, s: FieldState, depth: nat): Outcome
    requires depth < MaxInheritanceDepth
    decreases MaxInheritanceDepth - depth, 0, 0
  {
    var r := Run(gs, parent, s, depth + 1);
    if r.ok then
      var s1 := Inherit(s, r.state);
      Outcome(true, s1, r.log + [TraceEntry(Truncate(id, MaxGlyphIdLen), InheritedFrom(parent), s1)])
    else Outcome(false, s, r.log)
  }

  /** The parent loop of glyph_run_inheritance, from parent `i` on; a parent that fails is skipped. */
  function RunParents(gs: seq<GlyphDefinition>, id: string, ps: seq<string>, i: nat, s: FieldState, depth: nat): Outcome
    requires depth < MaxInheritanceDepth && i <= |ps|
    decreases MaxInheritanceDepth - depth, 0, |ps| - i + 1
  {
    if i == |ps| then Outcome(true, s, [])
    else
      var step := ParentStep(gs, id, ps[i], s, depth);
      var rest := RunParents(gs, id, ps, i + 1, step.state, depth);
      Outcome(true, rest.state, step.log + rest.log)
  }

  lemma RunParentsNext(gs: seq<GlyphDefinition>, id: string, ps: seq<string>, i: nat, s: FieldState, depth: nat)
    requires depth < MaxInheritanceDepth && i < |ps|
    ensures var step := ParentStep(gs, id, ps[i], s, depth);
      var rest := RunParents(gs, id, ps, i + 1, step.state, depth);
      RunParents(gs, id, ps, i, s, depth).state == rest.state &&
      RunParents(gs, id, ps, i, s, depth).log == step.log + rest.log
  {
  }

  /** The walk fails exactly at depth 32 or for an unregistered id, and a failure changes nothing. */
  lemma RunFails(gs: seq<GlyphDefinition>, id: string, s: FieldState, depth: nat)
    ensures !Run(gs, id, s, depth).ok <==>
      depth >= MaxInheritanceDepth || forall j :: 0 <= j < |gs| ==> gs[j].glyphId != id
    ensures !Run(gs, id, s, depth).ok ==> Run(gs, id, s, depth).state == s && Run(gs, id, s, depth).log == []
  {
  }

  /** Parents only feed resonance and entanglement into the child's state. */
  lemma {:induction false} RunParentsKeeps(gs: seq<GlyphDefinition>, id: string, ps: seq<string>, i: nat,
                                           s: FieldState, depth: nat)
    requires depth < MaxInheritanceDepth && i <= |ps|
    ensures var t := RunParents(gs, id, ps, i, s, depth).state;
      t.magnitude == s.magnitude && t.phase == s.phase && t.coherence == s.coherence &&
      t.depth == s.depth && t.activeGlyph == s.activeGlyph
    decreases |ps| - i
  {
    if i < |ps| {
      RunParentsKeeps(gs, id, ps, i + 1, ParentStep(gs, id, ps[i], s, depth).state, depth);
    }
  }

  /**
   * A successful walk leaves the glyph's own effect on magnitude, phase and
   * coherence, whatever its parents are; it records the depth and the glyph,
   * and its last trace entry is the local step.
   */
  lemma RunLocal(gs: seq<GlyphDefinition>, id: string, s: FieldState, depth: nat)
    requires Run(gs, id, s, depth).ok
    ensures var g := gs[FindGlyph(gs, id).value];
      var t := Run(gs, id, s, depth).state;
      t.magnitude == s.magnitude * g.fieldMagnitude &&
      t.phase == s.phase + g.phaseOffset &&
      t.coherence == CDiv(s.coherence + g.coherence, 2) &&
      t.depth == depth && t.activeGlyph == Truncate(id, MaxGlyphIdLen)
    ensures var log := Run(gs, id, s, depth).log;
      |log| > 0 && log[|log| - 1] == TraceEntry(Truncate(id, MaxGlyphIdLen), AppliedLocal, Run(gs, id, s, depth).state)
  {
    var k := FindGlyph(gs, id).value;
    var s0 := s.(depth := depth, activeGlyph := Truncate(id, MaxGlyphIdLen));
    RunParentsKeeps(gs, id, gs[k].parents, 0, s0, depth);
  }

  /** Every registered resonance is non-negative. */
  ghost predicate NonNegativeResonances(gs: seq<GlyphDefinition>) {
    forall j :: 0 <= j < |gs| ==> gs[j].resonanceFreq >= 0.0
  }

  /**
   * With non-negative resonances, inheritance never lowers resonance: a
   * successful walk ends at least at the starting resonance plus the glyph's own.
   */
  lemma {:induction false} RunResonance(gs: seq<GlyphDefinition>, id: string, s: FieldState, depth: nat)
    requires NonNegativeResonances(gs) && s.resonance >= 0.0
    ensures Run(gs, id, s, depth).state.resonance >= s.resonance
    ensures Run(gs, id, s, depth).ok ==>
      Run(gs, id, s, depth).state.resonance >= s.resonance + gs[FindGlyph(gs, id).value].resonanceFreq
    decreases MaxInheritanceDepth - depth, 1, 0
  {
    if depth < MaxInheritanceDepth && FindGlyph(gs, id).Some? {
      var k := FindGlyph(gs, id).value;
      var s0 := s.(depth := depth, activeGlyph := Truncate(id, MaxGlyphIdLen));
      RunParentsResonance(gs, id, gs[k].parents, 0, s0, depth);
    }
  }

  lemma {:induction false} RunParentsResonance(gs: seq<GlyphDefinition>, id: string, ps: seq<string>, i: nat,
                                               s: FieldState, depth: nat)
    requires depth < MaxInheritanceDepth && i <= |ps|
    requires NonNegativeResonances(gs) && s.resonance >= 0.0
    ensures RunParents(gs, id, ps, i, s, depth).state.resonance >= s.resonance
    decreases MaxInheritanceDepth - depth, 0, |ps| - i
  {
    if i < |ps| {
      RunResonance(gs, ps[i], s, depth + 1);
      RunParentsResonance(gs, id, ps, i + 1, ParentStep(gs, id, ps[i], s, depth).state, depth);
    }
  }

  // ---------------------------------------------------------------------
  // Activation commands

  /** execute_activation_command's effect on the state; `gs` is the registry the entangle target is looked up in. */
  function Execute(gs: seq<GlyphDefinition>, cmd: Command, s: FieldState): FieldState {
    if cmd.name == "resonate" then
      if cmd.hasParam then s.(resonance := s.resonance * cmd.param) else s
    else if cmd.name == "entangle" then
      if cmd.hasTarget then
        match FindGlyph(gs, cmd.target)
        case Some(k) => s.(entanglement := s.entanglement + gs[k].entanglementCoeff,
                           resonance := s.resonance + gs[k].resonanceFreq * 0.2)
        case None => s
      else s
    else if cmd.name == "amplify" then
      if cmd.hasParam then s.(magnitude := s.magnitude * cmd.param) else s
    else if cmd.name == "phase_shift" then
      if cmd.hasParam then s.(phase := s.phase + cmd.param) else s
    else if cmd.name == "stabilize" then
      s.(coherence := if s.coherence > 90 then 100 else s.coherence + 10)
    else if cmd.name == "decay" then
      if cmd.hasParam then s.(magnitude := s.magnitude * (1.0 - cmd.param),
                              coherence := s.coherence - TruncToInt(cmd.param * 10.0))
      else s
    else s
  }

  /** The commands that need a numeric parameter do nothing without one, and unknown commands do nothing. */
  lemma ExecuteWithoutParam(gs: seq<GlyphDefinition>, cmd: Command, s: FieldState)
    requires !cmd.hasParam
    requires cmd.name != "stabilize" && cmd.name != "entangle"
    ensures Execute(gs, cmd, s) == s
  {
  }

  /** entangle adds the target's coefficient and a fifth of its resonance, and nothing for an unknown target. */
  lemma ExecuteEntangle(gs: seq<GlyphDefinition>, cmd: Command, s: FieldState)
    requires cmd.name == "entangle"
    ensures (!cmd.hasTarget || forall j :: 0 <= j < |gs| ==> gs[j].glyphId != cmd.target) ==>
      Execute(gs, cmd, s) == s
    ensures cmd.hasTarget && FindGlyph(gs, cmd.target).Some? ==>
      var g := gs[FindGlyph(gs, cmd.target).value];
      Execute(gs, cmd, s) == s.(entanglement := s.entanglement + g.entanglementCoeff,
                                resonance := s.resonance + g.resonanceFreq * 0.2)
  {
  }

  /** stabilize never takes coherence above 100, and never lowers a coherence of at most 100. */
  lemma StabilizeBounds(gs: seq<GlyphDefinition>, cmd: Command, s: FieldState)
    requires cmd.name == "stabilize"
    ensures Execute(gs, cmd, s).coherence <= 100
    ensures s.coherence <= 100 ==> Execute(gs, cmd, s).coherence >= s.coherence
    ensures Execute(gs, cmd, s) == s.(coherence := Execute(gs, cmd, s).coherence)
  {
  }

  /** decay by a fraction in [0, 1] never raises a non-negative magnitude nor the coherence. */
  lemma DecayLowers(gs: seq<GlyphDefinition>, cmd: Command, s: FieldState)
    requires cmd.name == "decay" && cmd.hasParam && 0.0 <= cmd.param <= 1.0 && s.magnitude >= 0.0
    ensures 0.0 <= Execute(gs, cmd, s).magnitude <= s.magnitude
    ensures s.coherence - 10 <= Execute(gs, cmd, s).coherence <= s.coherence
  {
    TruncToIntBounds(cmd.param * 10.0);
  }

  /** The registry: glyph definitions in registration order and the trace log. */
  class Registry {
    var glyphs: seq<GlyphDefinition>
    var traces: seq<TraceEntry>
    var traceEnabled: bool

    /** At most 256 glyphs, with distinct ids, and at most 1024 trace entries. */
    ghost predicate Valid()
      reads this
    {
      |glyphs| <= MaxGlyphs && DistinctIds(glyphs) && |traces| <= MaxTraceEntries
    }

    /** The zeroed global registry; tracing is on unless switched off. */
    constructor (traceEnabled: bool)
      ensures Valid() && glyphs == [] && traces == [] && this.traceEnabled == traceEnabled
    {
      glyphs := [];
      traces := [];
      this.traceEnabled := traceEnabled;
    }

    /**
     * register_glyph: fails when 256 glyphs are held, even for a known id;
     * a known id succeeds without storing anything; a new one is appended.
     */
    method Register(g: GlyphDefinition) returns (ok: bool)
      requires Valid()
      modifies this
      ensures Valid()
      ensures ok <==> |old(glyphs)| < MaxGlyphs
      ensures glyphs == (if ok && FindGlyph(old(glyphs), g.glyphId).None? then old(glyphs) + [g] else old(glyphs))
      ensures ok ==> FindGlyph(glyphs, g.glyphId).Some?
      ensures traces == old(traces) && traceEnabled == old(traceEnabled)
    {
      if |glyphs| >= MaxGlyphs {
        return false;
      }
      if FindGlyph(glyphs, g.glyphId).Some? {
        return true;
      }
      glyphs := glyphs + [g];
      assert glyphs[|glyphs| - 1].glyphId == g.glyphId;
      ok := true;
    }

    /** add_trace: one entry, with the id cut to its 64-byte buffer. */
    method AddTrace(id: string, op: Operation, s: FieldState)
      requires Valid()
      modifies this
      ensures Valid()
      ensures traces == Traced(old(traces), traceEnabled, TraceEntry(Truncate(id, MaxGlyphIdLen), op, s))
      ensures glyphs == old(glyphs) && traceEnabled == old(traceEnabled)
    {
      if !traceEnabled || |traces| >= MaxTraceEntries {
        return;
      }
      traces := traces + [TraceEntry(Truncate(id, MaxGlyphIdLen), op, s)];
    }

    /**
     * glyph_run_inheritance on the registry: the state and result are those
     * of Run, and the trace log receives Run's entries through add_trace.
     */
    method RunInheritance(id: string, s: FieldState, depth: nat) returns (ok: bool, state: FieldState)
      requires Valid()
      modifies this
      ensures Valid()
      ensures ok == Run(glyphs, id, s, depth).ok && state == Run(glyphs, id, s, depth).state
      ensures traces == TracedAll(old(traces), traceEnabled, Run(glyphs, id, s, depth).log)
      ensures glyphs == old(glyphs) && traceEnabled == old(traceEnabled)
      decreases MaxInheritanceDepth - depth, 1, 0
    {
      if depth >= MaxInheritanceDepth {
        return false, s;
      }
      var found := FindGlyph(glyphs, id);
      if found.None? {
        return false, s;
      }
      var g := glyphs[found.value];
      state := s.(depth := depth, activeGlyph := Truncate(id, MaxGlyphIdLen));
      ghost var p := RunParents(glyphs, id, g.parents, 0, state, depth);
      ghost var t0 := traces;
      state := InheritParents(id, g.parents, state, depth);
      state := Local(state, g);
      AddTrace(id, AppliedLocal, state);
      TracedAllAppend(t0, traceEnabled, p.log, [TraceEntry(Truncate(id, MaxGlyphIdLen), AppliedLocal, state)]);
      ok := true;
    }

    /** The parent loop of glyph_run_inheritance: each parent runs one level deeper on a copy of the state. */
    method InheritParents(id: string, ps: seq<string>, s: FieldState, depth: nat) returns (state: FieldState)
      requires Valid() && depth < MaxInheritanceDepth
      modifies this
      ensures Valid()
      ensures state == RunParents(glyphs, id, ps, 0, s, depth).state
      ensures traces == TracedAll(old(traces), traceEnabled, RunParents(glyphs, id, ps, 0, s, depth).log)
      ensures glyphs == old(glyphs) && traceEnabled == old(traceEnabled)
      decreases MaxInheritanceDepth - depth, 0, |ps| + 1
    {
      state := s;
      ghost var t0 := traces;
      ghost var done: seq<TraceEntry> := [];
      var i := 0;
      while i < |ps|
        invariant i <= |ps| && Valid()
        invariant glyphs == old(glyphs) && traceEnabled == old(traceEnabled)
        invariant RunParents(glyphs, id, ps, i, state, depth).state == RunParents(glyphs, id, ps, 0, s, depth).state
        invariant done + RunParents(glyphs, id, ps, i, state, depth).log == RunParents(glyphs, id, ps, 0, s, depth).log
        invariant traces == TracedAll(t0, traceEnabled, done)
      {
        ghost var step := ParentStep(glyphs, id, ps[i], state, depth);
        RunParentsNext(glyphs, id, ps, i, state, depth);
        state := InheritFrom(id, ps[i], state, depth);
        TracedAllAppend(t0, traceEnabled, done, step.log);
        done := done + step.log;
        i := i + 1;
      }
      assert done == RunParents(glyphs, id, ps, 0, s, depth).log;
    }

    /** One parent: run it on a copy of the state and, if it succeeds, fold in its resonance and entanglement. */
    method InheritFrom(id: string, parent: string, s: FieldState, depth: nat) returns (state: FieldState)
      requires Valid() && depth < MaxInheritanceDepth
      modifies this
      ensures Valid()
      ensures state == ParentStep(glyphs, id, parent, s, depth).state
      ensures traces == TracedAll(old(traces), traceEnabled, ParentStep(glyphs, id, parent, s, depth).log)
      ensures glyphs == old(glyphs) && traceEnabled == old(traceEnabled)
      decreases MaxInheritanceDepth - depth, 0, 0
    {
      ghost var r := Run(glyphs, parent, s, depth + 1);
      ghost var t0 := traces;
      var parentOk, parentState := RunInheritance(parent, s, depth + 1);
      state := s;
      if parentOk {
        state := Inherit(s, parentState);
        AddTrace(id, InheritedFrom(parent), state);
        TracedAllAppend(t0, traceEnabled, r.log, [TraceEntry(Truncate(id, MaxGlyphIdLen), InheritedFrom(parent), state)]);
      }
    }

    /** execute_activation_command: the state changes as Execute says and one entry is traced under the glyph's id. */
    method ExecuteCommand(cmd: Command, s: FieldState, g: GlyphDefinition) returns (state: FieldState)
      requires Valid()
      modifies this
      ensures Valid()
      ensures state == Execute(glyphs, cmd, s)
      ensures traces == Traced(old(traces), traceEnabled, TraceEntry(Truncate(g.glyphId, MaxGlyphIdLen), Executed(cmd), state))
      ensures glyphs == old(glyphs) && traceEnabled == old(traceEnabled)
    {
      state := s;
      if cmd.name == "resonate" {
        if cmd.hasParam {
          state := state.(resonance := state.resonance * cmd.param);
        }
      } else if cmd.name == "entangle" {
        if cmd.hasTarget {
          var target := FindGlyph(glyphs, cmd.target);
          if target.Some? {
            var t := glyphs[target.value];
            state := state.(entanglement := state.entanglement + t.entanglementCoeff,
                            resonance := state.resonance + t.resonanceFreq * 0.2);
          }
        }
      } else if cmd.name == "amplify" {
        if cmd.hasParam {
          state := state.(magnitude := state.magnitude * cmd.param);
        }
      } else if cmd.name == "phase_shift" {
        if cmd.hasParam {
          state := state.(phase := state.phase + cmd.param);
        }
      } else if cmd.name == "stabilize" {
        state := state.(coherence := if state.coherence > 90 then 100 else state.coherence + 10);
      } else if cmd.name == "decay" {
        if cmd.hasParam {
          state := state.(magnitude := state.magnitude * (1.0 - cmd.param),
                          coherence := state.coherence - TruncToInt(cmd.param * 10.0));
        }
      }
      AddTrace(g.glyphId, Executed(cmd), state);
    }
  }
}
