/**
 * The fuzz targets' own GDF buffer parser: a reduced glyph record filled
 * line by line from the text before the first NUL byte, and the rule that
 * decides whether the result is a valid glyph.
 */
module FuzzGdf {
  import opened CString
  import opened CLib
  import Gdf

  /** Inputs of more than 1 MiB are rejected before parsing. */
  const MaxInputSize: nat := 1024 * 1024
  /** Size of the material and activation buffers. */
  const FieldLen: nat := 256

  /** The fuzz target's glyph record; its parent list is declared but never filled. */
  datatype FuzzGlyph = FuzzGlyph(
    glyphId: string,
    chronocode: string,
    resonanceFreq: real,
    fieldMagnitude: real,
    coherence: int,
    materialSpec: string,
    activationScript: string)

  /** The memset record parsing starts from. */
  const Zeroed := FuzzGlyph("", "", 0.0, 0.0, 0, "", "")

  /** The bytes of the input read as characters. */
  function Text(data: seq<bv8>): (t: string)
    ensures |t| == |data| && forall i :: 0 <= i < |data| ==> t[i] as int == data[i] as int
  {
    seq(|data|, i requires 0 <= i < |data| => (data[i] as int) as char)
  }

  /** The C string the parser walks: the copied input up to its first NUL. */
  function CText(data: seq<bv8>): (t: string)
    ensures |t| <= |data| && '\0' !in t
    ensures t == Text(data)[..|t|]
    ensures |t| < |data| ==> data[|t|] == 0
  {
    Text(data)[..Find(Text(data), '\0')]
  }

  /**
   * The fuzz target's parse_gdf_field, after its own trim of key and value: the
   * keys it knows are a subset of the interpreter's keys and aliases, and
   * everything else (parents included) is ignored.
   */
  function FuzzSet(g: FuzzGlyph, key: string, value: string, libc: Libc): FuzzGlyph {
    SetKnown(g, Gdf.FieldOf(Trim(key, IsFuzzSpace)), Trim(value, IsFuzzSpace), libc)
  }

  /** The field the fuzz target sets for a recognised key, from the trimmed value. */
  function SetKnown(g: FuzzGlyph, f: Option<Gdf.Field>, v: string, libc: Libc): FuzzGlyph {
    match f
    case Some(GlyphIdField) => g.(glyphId := Truncate(v, Gdf.MaxGlyphIdLen))
    case Some(ChronocodeField) => g.(chronocode := Truncate(v, Gdf.MaxChronocodeLen))
    case Some(ResonanceField) => g.(resonanceFreq := libc.atof(v))
    case Some(MagnitudeField) => g.(fieldMagnitude := libc.atof(v))
    case Some(CoherenceField) => g.(coherence := libc.atoi(v))
    case Some(MaterialField) => g.(materialSpec := Truncate(v, FieldLen))
    case Some(ActivationField) => g.(activationScript := Truncate(v, FieldLen))
    case _ => g
  }

  /** The key and value of a line: trimmed, not blank, not a '#' comment, split at its first ':'. */
  function Entry(line: string): (e: Option<(string, string)>)
    ensures e.None? <==>
      (|Trim(line, IsFuzzSpace)| == 0 || Trim(line, IsFuzzSpace)[0] == '#' || ':' !in Trim(line, IsFuzzSpace))
    ensures e.Some? ==> Trim(line, IsFuzzSpace) == e.value.0 + [':'] + e.value.1 && ':' !in e.value.0
  {
    var t := Trim(line, IsFuzzSpace);
    if |t| == 0 || t[0] == '#' then None
    else
      var i := Find(t, ':');
      if i == |t| then None
      else
        assert t == t[..i] + [':'] + t[i + 1..];
        Some((t[..i], t[i + 1..]))
  }

  function ApplyLine(g: FuzzGlyph, line: string, libc: Libc): FuzzGlyph {
    match Entry(line)
    case None => g
    case Some((k, v)) => FuzzSet(g, k, v, libc)
  }

  /**
   * The lines the parser visits: it cuts at each '\n' and stops when the
   * rest of the text is empty, so a final newline adds no line.
   */
  function Lines(s: string): seq<string>
    decreases |s|
  {
    if |s| == 0 then []
    else
      var i := Find(s, '\n');
      if i == |s| then [s] else [s[..i]] + Lines(s[i + 1..])
  }

  /** A left fold of a per-line step over the lines. */
  function Fold<S>(s: S, lines: seq<string>, step: (S, string) -> S): S
    decreases |lines|
  {
    if |lines| == 0 then s else Fold(step(s, lines[0]), lines[1..], step)
  }

  /** A projection of the state that no line sets keeps its starting value. */
  lemma {:induction false} FoldKeeps<S, V>(s: S, lines: seq<string>, step: (S, string) -> S,
                                          sets: string -> bool, proj: S -> V)
    requires forall x, l :: !sets(l) ==> proj(step(x, l)) == proj(x)
    requires forall i :: 0 <= i < |lines| ==> !sets(lines[i])
    ensures proj(Fold(s, lines, step)) == proj(s)
    decreases |lines|
  {
    if |lines| > 0 {
      assert forall i :: 0 <= i < |lines| - 1 ==> lines[1..][i] == lines[i + 1];
      FoldKeeps(step(s, lines[0]), lines[1..], step, sets, proj);
    }
  }

  /**
   * For a projection of the state that each line either leaves alone or sets
   * from its own text, the last line that sets it decides the result.
   */
  lemma {:induction false} FoldLastWins<S, V>(s: S, lines: seq<string>, step: (S, string) -> S,
                                             sets: string -> bool, proj: S -> V, val: string -> V, j: nat)
    requires forall x, l :: !sets(l) ==> proj(step(x, l)) == proj(x)
    requires forall x, l :: sets(l) ==> proj(step(x, l)) == val(l)
    requires j < |lines| && sets(lines[j]) && forall i :: j < i < |lines| ==> !sets(lines[i])
    ensures proj(Fold(s, lines, step)) == val(lines[j])
    decreases |lines|
  {
    assert forall i :: 0 <= i < |lines| - 1 ==> lines[1..][i] == lines[i + 1];
    if j == 0 {
      FoldKeeps(step(s, lines[0]), lines[1..], step, sets, proj);
    } else {
      FoldLastWins(step(s, lines[0]), lines[1..], step, sets, proj, val, j - 1);
    }
  }

  /** An invariant every step preserves holds after the fold. */
  lemma {:induction false} FoldPreserves<S>(s: S, lines: seq<string>, step: (S, string) -> S, inv: S -> bool)
    requires forall x, l :: inv(x) ==> inv(step(x, l))
    requires inv(s)
    ensures inv(Fold(s, lines, step))
    decreases |lines|
  {
    if |lines| > 0 {
      FoldPreserves(step(s, lines[0]), lines[1..], step, inv);
    }
  }

  lemma FoldCons<S>(s: S, l: string, ls: seq<string>, step: (S, string) -> S)
    ensures Fold(s, [l] + ls, step) == Fold(step(s, l), ls, step)
  {
    assert ([l] + ls)[1..] == ls;
  }

  function Step(libc: Libc): (FuzzGlyph, string) -> FuzzGlyph {
    (g, line) => ApplyLine(g, line, libc)
  }

  lemma StepApply(libc: Libc, g: FuzzGlyph, line: string)
    ensures Step(libc)(g, line) == ApplyLine(g, line, libc)
  {
  }

  /** The record parse_gdf_buffer validates. */
  function Parse(data: seq<bv8>, libc: Libc): FuzzGlyph {
    Fold(Zeroed, Lines(CText(data)), Step(libc))
  }

  /** The validation: a non-empty id, resonance in [0, 100000], magnitude in [0, 1000], coherence in [0, 100]. */
  predicate Accepts(g: FuzzGlyph) {
    |g.glyphId| > 0 &&
    0.0 <= g.resonanceFreq <= 100000.0 &&
    0.0 <= g.fieldMagnitude <= 1000.0 &&
    0 <= g.coherence <= 100
  }

  /** The value parse_gdf_buffer returns. */
  function Result(data: seq<bv8>, libc: Libc): int {
    if |data| == 0 || |data| > MaxInputSize then -1
    else if Accepts(Parse(data, libc)) then 0
    else -1
  }

  /** strchr finds the same first occurrence in a longer string. */
  lemma FindExtend(s: string, t: string, c: char)
    requires c in s
    ensures Find(s + t, c) == Find(s, c)
  {
    var i := Find(s, c);
    var j := Find(s + t, c);
    assert (s + t)[i] == c;
    if j < i {
      assert (s + t)[j] == s[j];
    }
  }

  /** Nothing after the first NUL byte affects the parse. */
  lemma StopsAtNul(data: seq<bv8>, tail: seq<bv8>, libc: Libc)
    requires 0 in data
    ensures Parse(data + tail, libc) == Parse(data, libc)
  {
    var k :| 0 <= k < |data| && data[k] == 0;
    assert Text(data)[k] == '\0';
    assert Text(data + tail) == Text(data) + Text(tail);
    FindExtend(Text(data), Text(tail), '\0');
    var n := Find(Text(data), '\0');
    assert (Text(data) + Text(tail))[..n] == Text(data)[..n];
  }

  /** Whether a line assigns the glyph id. */
  predicate SetsId(line: string) {
    Entry(line).Some? && Gdf.FieldOf(Trim(Entry(line).value.0, IsFuzzSpace)) == Some(Gdf.GlyphIdField)
  }

  lemma ApplyLineId(g: FuzzGlyph, line: string, libc: Libc)
    ensures !SetsId(line) ==> ApplyLine(g, line, libc).glyphId == g.glyphId
    ensures SetsId(line) ==>
      ApplyLine(g, line, libc).glyphId == Truncate(Trim(Entry(line).value.1, IsFuzzSpace), Gdf.MaxGlyphIdLen)
  {
  }

  function IdOf(g: FuzzGlyph): string { g.glyphId }

  function AssignedId(line: string): string {
    if Entry(line).Some? then Truncate(Trim(Entry(line).value.1, IsFuzzSpace), Gdf.MaxGlyphIdLen) else ""
  }

  lemma IdStep(libc: Libc)
    ensures forall x, l :: !SetsId(l) ==> IdOf(Step(libc)(x, l)) == IdOf(x)
    ensures forall x, l :: SetsId(l) ==> IdOf(Step(libc)(x, l)) == AssignedId(l)
  {
    forall x, l ensures (!SetsId(l) ==> IdOf(Step(libc)(x, l)) == IdOf(x)) && (SetsId(l) ==> IdOf(Step(libc)(x, l)) == AssignedId(l)) {
      StepApply(libc, x, l);
      ApplyLineId(x, l, libc);
    }
  }

  /** Without a line that sets glyph_id, the id keeps its starting value. */
  lemma IdUntouched(g: FuzzGlyph, lines: seq<string>, libc: Libc)
    requires forall i :: 0 <= i < |lines| ==> !SetsId(lines[i])
    ensures Fold(g, lines, Step(libc)).glyphId == g.glyphId
  {
    IdStep(libc);
    FoldKeeps(g, lines, Step(libc), SetsId, IdOf);
  }

  /** The last line that sets glyph_id decides it: a later key overwrites an earlier one. */
  lemma IdLastWins(g: FuzzGlyph, lines: seq<string>, j: nat, libc: Libc)
    requires j < |lines| && SetsId(lines[j]) && forall i :: j < i < |lines| ==> !SetsId(lines[i])
    ensures Fold(g, lines, Step(libc)).glyphId == Truncate(Trim(Entry(lines[j]).value.1, IsFuzzSpace), Gdf.MaxGlyphIdLen)
  {
    IdStep(libc);
    FoldLastWins(g, lines, Step(libc), SetsId, IdOf, AssignedId, j);
  }

  /** Every string field fits its buffer with room for the NUL. */
  predicate Bounded(g: FuzzGlyph) {
    |g.glyphId| < Gdf.MaxGlyphIdLen && |g.chronocode| < Gdf.MaxChronocodeLen &&
    |g.materialSpec| < FieldLen && |g.activationScript| < FieldLen
  }

  lemma SetBounded(g: FuzzGlyph, f: Option<Gdf.Field>, v: string, libc: Libc)
    requires Bounded(g)
    ensures Bounded(SetKnown(g, f, v, libc))
  {
  }

  lemma LineBounded(g: FuzzGlyph, line: string, libc: Libc)
    requires Bounded(g)
    ensures Bounded(ApplyLine(g, line, libc))
  {
    if Entry(line).Some? {
      var (k, v) := Entry(line).value;
      SetBounded(g, Gdf.FieldOf(Trim(k, IsFuzzSpace)), Trim(v, IsFuzzSpace), libc);
    }
  }

  /** Whatever the input, the parsed record's strings are cut to their buffers. */
  lemma ParseBounded(data: seq<bv8>, libc: Libc)
    ensures Bounded(Parse(data, libc))
  {
    forall x, l | Bounded(x) ensures Bounded(Step(libc)(x, l)) {
      StepApply(libc, x, l);
      LineBounded(x, l, libc);
    }
    FoldPreserves(Zeroed, Lines(CText(data)), Step(libc), Bounded);
  }

  /** Empty or oversized input is rejected, and so is input in which no line sets glyph_id. */
  lemma Rejections(data: seq<bv8>, libc: Libc)
    ensures |data| == 0 || |data| > MaxInputSize ==> Result(data, libc) == -1
    ensures (forall i :: 0 <= i < |Lines(CText(data))| ==> !SetsId(Lines(CText(data))[i])) ==> Result(data, libc) == -1
  {
    if forall i :: 0 <= i < |Lines(CText(data))| ==> !SetsId(Lines(CText(data))[i]) {
      IdUntouched(Zeroed, Lines(CText(data)), libc);
    }
  }

  /**
   * One pass of the parser's loop body: trim the line, skip blanks and
   * comments, split at the first ':' and set the field.
   */
  method ParseLine(g: FuzzGlyph, line: string, libc: Libc) returns (r: FuzzGlyph)
    ensures r == ApplyLine(g, line, libc)
  {
    var lo, hi := TrimBounds(line, IsFuzzSpace);
    var t := line[lo..hi];
    if |t| == 0 || t[0] == '#' {
      return g;
    }
    var colon := Find(t, ':');
    if colon == |t| {
      return g;
    }
    r := FuzzSet(g, t[..colon], t[colon + 1..], libc);
  }

  /**
   * The loop of parse_gdf_buffer: cut the rest of the text at its next
   * '\n', hand the line to `step`, and go on after the newline until the
   * text is used up.
   */
  method WalkLines<S>(s0: S, text: string, step: (S, string) -> S) returns (s: S)
    ensures s == Fold(s0, Lines(text), step)
  {
    s := s0;
    var pos := 0;
    while pos < |text|
      invariant pos <= |text|
      invariant Fold(s, Lines(text[pos..]), step) == Fold(s0, Lines(text), step)
      decreases |text| - pos
    {
      var rest := text[pos..];
      var nl := Find(rest, '\n');
      LinesNext(rest);
      if nl == |rest| {
        FoldCons(s, rest, [], step);
        s := step(s, rest);
        pos := |text|;
      } else {
        FoldCons(s, rest[..nl], Lines(rest[nl + 1..]), step);
        s := step(s, rest[..nl]);
        assert rest[nl + 1..] == text[pos + nl + 1..];
        pos := pos + nl + 1;
      }
    }
  }

  lemma LinesNext(s: string)
    requires |s| > 0
    ensures Find(s, '\n') == |s| ==> Lines(s) == [s]
    ensures Find(s, '\n') < |s| ==> Lines(s) == [s[..Find(s, '\n')]] + Lines(s[Find(s, '\n') + 1..])
  {
  }

  /** parse_gdf_buffer: reject by size, parse, validate. */
  method ParseBuffer(data: seq<bv8>, libc: Libc) returns (rc: int)
    ensures rc == Result(data, libc)
    ensures rc == 0 || rc == -1
  {
    if |data| == 0 || |data| > MaxInputSize {
      return -1;
    }
    var g := WalkLines(Zeroed, CText(data), Step(libc));
    rc := if Accepts(g) then 0 else -1;
  }
}
