/**
 * The Glyph Definition Format front end of the interpreter: the definition
 * record with its defaults, the `key: value` field dispatch with its aliases,
 * comma-separated parent lists, and the per-line filter of the file loader.
 * Writing a field through the record pointer is modelled as returning the
 * updated record; the loader's loop keeps that record in a local variable.
 */
module Gdf {
  import opened CString
  import opened CLib

  const MaxGlyphIdLen: nat := 64
  const MaxChronocodeLen: nat := 32
  const MaxParentGlyphs: nat := 16
  const MaxMaterialSpecLen: nat := 256
  const MaxFreqSigLen: nat := 512
  const MaxActivationCmdLen: nat := 1024
  const MaxLineLength: nat := 2048

  /**
   * A glyph definition; every text field holds what its fixed buffer holds,
   * and `parents` holds the first parent_count entries of parent_glyphs.
   */
  datatype GlyphDefinition = GlyphDefinition(
    glyphId: string,
    chronocode: string,
    parents: seq<string>,
    resonanceFreq: real,
    fieldMagnitude: real,
    coherence: int,
    contributor: string,
    materialSpec: string,
    frequencySignature: string,
    activationSimulation: string,
    entanglementCoeff: real,
    phaseOffset: real,
    quantumState: int,
    metadata: string,
    dependencies: string,
    outputs: string,
    constraints: string,
    isLoaded: bool)

  /** The zeroed record with the loader's defaults filled in, before any line is read. */
  const Defaults := GlyphDefinition("", "", [], 440.0, 1.0, 100, "", "", "", "", 1.0, 0.0, 0,
                                    "", "", "", "", false)

  /** The fields a definition line can set. */
  datatype Field =
    | GlyphIdField | ChronocodeField | ParentsField | ResonanceField | MagnitudeField
    | CoherenceField | ContributorField | MaterialField | FreqSigField | ActivationField
    | EntanglementField | PhaseField | QuantumStateField | MetadataField
    | DependenciesField | OutputsField | ConstraintsField

  /** The full key naming each field. */
  function Key(f: Field): string {
    match f
    case GlyphIdField => "glyph_id"
    case ChronocodeField => "chronocode"
    case ParentsField => "parent_glyphs"
    case ResonanceField => "resonance_freq"
    case MagnitudeField => "field_magnitude"
    case CoherenceField => "coherence"
    case ContributorField => "contributor_inheritance"
    case MaterialField => "material_spec"
    case FreqSigField => "frequency_signature"
    case ActivationField => "activation_simulation"
    case EntanglementField => "entanglement_coeff"
    case PhaseField => "phase_offset"
    case QuantumStateField => "quantum_state"
    case MetadataField => "metadata"
    case DependenciesField => "dependencies"
    case OutputsField => "outputs"
    case ConstraintsField => "constraints"
  }

  /** The short alias a field also answers to (its key when it has none). */
  function Alias(f: Field): string {
    match f
    case ParentsField => "parent"
    case ResonanceField => "resonance"
    case MagnitudeField => "magnitude"
    case ContributorField => "contributor"
    case MaterialField => "material"
    case FreqSigField => "freq_sig"
    case ActivationField => "activation"
    case EntanglementField => "entanglement"
    case PhaseField => "phase"
    case _ => Key(f)
  }

  /** The field a trimmed key selects: exactly the keys and aliases above, and nothing else. */
  function FieldOf(k: string): (r: Option<Field>)
    ensures r.Some? ==> k == Key(r.value) || k == Alias(r.value)
    ensures r.None? ==> forall f: Field :: k != Key(f) && k != Alias(f)
  {
    if k == "glyph_id" then Some(GlyphIdField)
    else if k == "chronocode" then Some(ChronocodeField)
    else if k == "parent" || k == "parent_glyphs" then Some(ParentsField)
    else if k == "resonance_freq" || k == "resonance" then Some(ResonanceField)
    else if k == "field_magnitude" || k == "magnitude" then Some(MagnitudeField)
    else if k == "coherence" then Some(CoherenceField)
    else if k == "contributor_inheritance" || k == "contributor" then Some(ContributorField)
    else if k == "material_spec" || k == "material" then Some(MaterialField)
    else if k == "frequency_signature" || k == "freq_sig" then Some(FreqSigField)
    else if k == "activation_simulation" || k == "activation" then Some(ActivationField)
    else if k == "entanglement_coeff" || k == "entanglement" then Some(EntanglementField)
    else if k == "phase_offset" || k == "phase" then Some(PhaseField)
    else if k == "quantum_state" then Some(QuantumStateField)
    else if k == "metadata" then Some(MetadataField)
    else if k == "dependencies" then Some(DependenciesField)
    else if k == "outputs" then Some(OutputsField)
    else if k == "constraints" then Some(ConstraintsField)
    else None
  }

  /** The contents of one field, whatever its C type. */
  datatype FieldValue = Text(s: string) | List(items: seq<string>) | Number(r: real) | Integer(i: int)

  function Get(g: GlyphDefinition, f: Field): FieldValue {
    match f
    case GlyphIdField => Text(g.glyphId)
    case ChronocodeField => Text(g.chronocode)
    case ParentsField => List(g.parents)
    case ResonanceField => Number(g.resonanceFreq)
    case MagnitudeField => Number(g.fieldMagnitude)
    case CoherenceField => Integer(g.coherence)
    case ContributorField => Text(g.contributor)
    case MaterialField => Text(g.materialSpec)
    case FreqSigField => Text(g.frequencySignature)
    case ActivationField => Text(g.activationSimulation)
    case EntanglementField => Number(g.entanglementCoeff)
    case PhaseField => Number(g.phaseOffset)
    case QuantumStateField => Integer(g.quantumState)
    case MetadataField => Text(g.metadata)
    case DependenciesField => Text(g.dependencies)
    case OutputsField => Text(g.outputs)
    case ConstraintsField => Text(g.constraints)
  }

  /**
   * What a field holds after a line assigns the trimmed text `v`: strings are
   * cut to their buffer size - 1, numbers go through atof or atoi, and a
   * parent list is split and trimmed.
   */
  function Value(f: Field, v: string, libc: Libc): FieldValue {
    match f
    case GlyphIdField => Text(Truncate(v, MaxGlyphIdLen))
    case ChronocodeField => Text(Truncate(v, MaxChronocodeLen))
    case ParentsField => List(ParentList(v))
    case ResonanceField => Number(libc.atof(v))
    case MagnitudeField => Number(libc.atof(v))
    case CoherenceField => Integer(libc.atoi(v))
    case ContributorField => Text(Truncate(v, MaxGlyphIdLen))
    case MaterialField => Text(Truncate(v, MaxMaterialSpecLen))
    case FreqSigField => Text(Truncate(v, MaxFreqSigLen))
    case ActivationField => Text(Truncate(v, MaxActivationCmdLen))
    case EntanglementField => Number(libc.atof(v))
    case PhaseField => Number(libc.atof(v))
    case QuantumStateField => Integer(libc.atoi(v))
    case MetadataField => Text(Truncate(v, MaxMaterialSpecLen))
    case DependenciesField => Text(Truncate(v, MaxFreqSigLen))
    case OutputsField => Text(Truncate(v, MaxFreqSigLen))
    case ConstraintsField => Text(Truncate(v, MaxFreqSigLen))
  }

  /** One branch of parse_gdf_field: field `f` takes its new value and no other field changes. */
  function SetField(g: GlyphDefinition, f: Field, v: string, libc: Libc): (r: GlyphDefinition)
    ensures Get(r, f) == Value(f, v, libc)
    ensures forall other: Field :: other != f ==> Get(r, other) == Get(g, other)
    ensures r.isLoaded == g.isLoaded
  {
    match f
    case GlyphIdField => g.(glyphId := Truncate(v, MaxGlyphIdLen))
    case ChronocodeField => g.(chronocode := Truncate(v, MaxChronocodeLen))
    case ParentsField => g.(parents := ParentList(v))
    case ResonanceField => g.(resonanceFreq := libc.atof(v))
    case MagnitudeField => g.(fieldMagnitude := libc.atof(v))
    case CoherenceField => g.(coherence := libc.atoi(v))
    case ContributorField => g.(contributor := Truncate(v, MaxGlyphIdLen))
    case MaterialField => g.(materialSpec := Truncate(v, MaxMaterialSpecLen))
    case FreqSigField => g.(frequencySignature := Truncate(v, MaxFreqSigLen))
    case ActivationField => g.(activationSimulation := Truncate(v, MaxActivationCmdLen))
    case EntanglementField => g.(entanglementCoeff := libc.atof(v))
    case PhaseField => g.(phaseOffset := libc.atof(v))
    case QuantumStateField => g.(quantumState := libc.atoi(v))
    case MetadataField => g.(metadata := Truncate(v, MaxMaterialSpecLen))
    case DependenciesField => g.(dependencies := Truncate(v, MaxFreqSigLen))
    case OutputsField => g.(outputs := Truncate(v, MaxFreqSigLen))
    case ConstraintsField => g.(constraints := Truncate(v, MaxFreqSigLen))
  }

  /** Result of parse_gdf_field: whether the key was recognised, and the record afterwards. */
  datatype FieldResult = FieldResult(known: bool, glyph: GlyphDefinition)

  /**
   * parse_gdf_field: trims key and value; a recognised key or alias sets its
   * one field and yields 1, an unknown key yields 0 and leaves the record alone.
   */
  function ParseField(key: string, value: string, g: GlyphDefinition, libc: Libc): (r: FieldResult)
    ensures r.known <==> exists f: Field :: Trim(key, IsSpace) in {Key(f), Alias(f)}
    ensures !r.known ==> r.glyph == g
    ensures r.known ==> exists f: Field ::
      FieldOf(Trim(key, IsSpace)) == Some(f) &&
      Get(r.glyph, f) == Value(f, Trim(value, IsSpace), libc) &&
      forall other: Field :: other != f ==> Get(r.glyph, other) == Get(g, other)
  {
    var k := Trim(key, IsSpace);
    match FieldOf(k)
    case None => FieldResult(false, g)
    case Some(f) =>
      FieldResult(true, SetField(g, f, Trim(value, IsSpace), libc))
  }

  // ---------------------------------------------------------------------
  // Parent lists

  /** One token of a parent list: trimmed, dropped when blank, cut to an id buffer. */
  function ParentToken(t: string): Option<string> {
    var x := Trim(t, IsSpace);
    if |x| > 0 then Some(Truncate(x, MaxGlyphIdLen)) else None
  }

  /** The tokens of a parent-list value, after the 2047-character copy. */
  function ParentTokens(v: string): seq<string> {
    Tokens(Truncate(v, MaxLineLength), ',')
  }

  /** parse_parent_list: the first 16 non-blank tokens. */
  function ParentList(v: string): seq<string> {
    KeepFirst(ParentTokens(v), ParentToken, MaxParentGlyphs)
  }

  /** A kept parent id is non-empty, at most 63 characters, comma-free and starts with a non-space. */
  lemma ParentTokenShape(t: string)
    requires ParentToken(t).Some?
    ensures var p := ParentToken(t).value;
      0 < |p| < MaxGlyphIdLen && !IsSpace(p[0]) && forall i :: 0 <= i < |p| ==> p[i] in t
  {
    var x := Trim(t, IsSpace);
    TrimSpec(t, IsSpace);
    var lo := LeadingCount(t, IsSpace);
    var p := Truncate(x, MaxGlyphIdLen);
    forall i | 0 <= i < |p| ensures p[i] in t {
      assert p[i] == x[i] == t[lo + i];
    }
  }

  /**
   * What parse_parent_list promises: at most 16 parents, each non-empty,
   * at most 63 characters, free of commas and not starting with whitespace;
   * they are the first 16 non-blank tokens, in order, and all of them when
   * there are no more than 16.
   */
  lemma ParentListSpec(v: string)
    ensures |ParentList(v)| <= MaxParentGlyphs
    ensures ParentList(v) <= KeepAll(ParentTokens(v), ParentToken)
    ensures |KeepAll(ParentTokens(v), ParentToken)| <= MaxParentGlyphs ==>
              ParentList(v) == KeepAll(ParentTokens(v), ParentToken)
    ensures forall p :: p in ParentList(v) ==> 0 < |p| < MaxGlyphIdLen && ',' !in p && !IsSpace(p[0])
  {
    var ts := ParentTokens(v);
    var all := KeepAll(ts, ParentToken);
    KeepFirstIsPrefix(ts, ParentToken, MaxParentGlyphs);
    TokensShape(Truncate(v, MaxLineLength), ',');
    KeepAllFrom(ts, ParentToken);
    forall p | p in ParentList(v) ensures 0 < |p| < MaxGlyphIdLen && ',' !in p && !IsSpace(p[0]) {
      assert p in all;
      var t :| t in ts && ParentToken(t) == Some(p);
      ParentTokenShape(t);
    }
  }

  /**
   * parse_parent_list: the strtok loop over the comma-separated tokens,
   * keeping each non-blank trimmed token until 16 are held.
   */
  method ParseParentList(v: string) returns (parents: seq<string>)
    ensures parents == ParentList(v)
  {
    parents := KeepTokens(ParentTokens(v), ParentToken, MaxParentGlyphs);
  }

  // ---------------------------------------------------------------------
  // The loader's line filter

  /**
   * The per-line logic of parse_gdf_file: a trimmed line that is blank, a
   * '#' comment or has no ':' is skipped; otherwise it splits at its first ':'.
   */
  function LineEntry(line: string): (e: Option<(string, string)>)
    ensures e.None? <==>
      (|Trim(line, IsSpace)| == 0 || Trim(line, IsSpace)[0] == '#' || ':' !in Trim(line, IsSpace))
    ensures e.Some? ==> Trim(line, IsSpace) == e.value.0 + [':'] + e.value.1 && ':' !in e.value.0
  {
    var t := Trim(line, IsSpace);
    if |t| == 0 || t[0] == '#' then None
    else
      var i := Find(t, ':');
      if i == |t| then None
      else
        assert t == t[..i] + [':'] + t[i + 1..];
        Some((t[..i], t[i + 1..]))
  }

  /** The record after each line in turn has gone through the filter and parse_gdf_field. */
  function ApplyLines(g: GlyphDefinition, lines: seq<string>, libc: Libc): GlyphDefinition
    decreases |lines|
  {
    if |lines| == 0 then g
    else ApplyLines(ApplyLine(g, lines[0], libc), lines[1..], libc)
  }

  function ApplyLine(g: GlyphDefinition, line: string, libc: Libc): GlyphDefinition {
    match LineEntry(line)
    case None => g
    case Some((k, v)) => ParseField(k, v, g, libc).glyph
  }

  /** Whether a line assigns field `f`, and the trimmed text it assigns. */
  predicate Sets(line: string, f: Field) {
    LineEntry(line).Some? && FieldOf(Trim(LineEntry(line).value.0, IsSpace)) == Some(f)
  }

  function Assigned(line: string): string
    requires LineEntry(line).Some?
  {
    Trim(LineEntry(line).value.1, IsSpace)
  }

  /** A line that does not assign `f` leaves `f` alone. */
  lemma ApplyLineFrame(g: GlyphDefinition, line: string, f: Field, libc: Libc)
    ensures !Sets(line, f) ==> Get(ApplyLine(g, line, libc), f) == Get(g, f)
    ensures Sets(line, f) ==> Get(ApplyLine(g, line, libc), f) == Value(f, Assigned(line), libc)
  {
  }

  /** A field no line assigns keeps the value it started with. */
  lemma {:induction false} Untouched(g: GlyphDefinition, lines: seq<string>, f: Field, libc: Libc)
    requires forall i :: 0 <= i < |lines| ==> !Sets(lines[i], f)
    ensures Get(ApplyLines(g, lines, libc), f) == Get(g, f)
    decreases |lines|
  {
    if |lines| > 0 {
      ApplyLineFrame(g, lines[0], f, libc);
      Untouched(ApplyLine(g, lines[0], libc), lines[1..], f, libc);
    }
  }

  /** The last line that assigns a field decides its value: a later key overwrites an earlier one. */
  lemma {:induction false} LastWins(g: GlyphDefinition, lines: seq<string>, j: nat, f: Field, libc: Libc)
    requires j < |lines| && Sets(lines[j], f)
    requires forall i :: j < i < |lines| ==> !Sets(lines[i], f)
    ensures Get(ApplyLines(g, lines, libc), f) == Value(f, Assigned(lines[j]), libc)
    decreases |lines|
  {
    var g1 := ApplyLine(g, lines[0], libc);
    ApplyLineFrame(g, lines[0], f, libc);
    if j == 0 {
      Untouched(g1, lines[1..], f, libc);
    } else {
      LastWins(g1, lines[1..], j - 1, f, libc);
    }
  }

  /** The lines of parse_gdf_file once fopen and fgets have delivered them. */
  function Loaded(lines: seq<string>, libc: Libc): GlyphDefinition {
    ApplyLines(Defaults, lines, libc).(isLoaded := true)
  }

  /**
   * The body of parse_gdf_file after the file is open: start from the
   * defaults, run every line through the filter and parse_gdf_field, then
   * mark the record loaded.
   */
  method ParseGdfLines(lines: seq<string>, libc: Libc) returns (g: GlyphDefinition)
    ensures g == Loaded(lines, libc)
  {
    g := Defaults;
    var i := 0;
    while i < |lines|
      invariant i <= |lines|
      invariant ApplyLines(g, lines[i..], libc) == ApplyLines(Defaults, lines, libc)
    {
      var entry := LineEntry(lines[i]);
      if entry.Some? {
        var r := ParseField(entry.value.0, entry.value.1, g, libc);
        g := r.glyph;
      }
      assert lines[i..][1..] == lines[i + 1..];
      i := i + 1;
    }
    g := g.(isLoaded := true);
  }
}
