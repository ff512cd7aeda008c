/**
 * The Python merge wrapper: a glyph record with the C++ struct's fields, its
 * dictionary form, and the pure-Python merge. The hexadecimal SHA-256
 * digest of the UTF-8 encoded content is passed in as a function.
 */
module SpuWrapper {
  import opened CLib
  import MergeSpec

  datatype Glyph = Glyph(
    id: string,
    content: string,
    energy: real,
    activationCount: int,
    lastUpdateTime: int,
    parent1Id: string,
    parent2Id: string)

  /** Glyph(id, content, energy, activation_count, last_update_time): the parents start empty. */
  function NewGlyph(id: string, content: string, energy: real, activationCount: int, lastUpdateTime: int): Glyph {
    Glyph(id, content, energy, activationCount, lastUpdateTime, "", "")
  }

  /** A dictionary with the keys a glyph uses; None is a missing key. */
  datatype Dict = Dict(
    id: Option<string>,
    content: Option<string>,
    energy: Option<real>,
    activationCount: Option<int>,
    lastUpdateTime: Option<int>,
    parent1Id: Option<string>,
    parent2Id: Option<string>)

  /** to_dict: the five value fields; the parents are not written. */
  function ToDict(g: Glyph): Dict {
    Dict(Some(g.id), Some(g.content), Some(g.energy), Some(g.activationCount), Some(g.lastUpdateTime), None, None)
  }

  /** dict.get(key, default). */
  function Get<T>(o: Option<T>, default: T): T {
    match o
    case Some(v) => v
    case None => default
  }

  /** from_dict: every key read with its constructor default. */
  function FromDict(d: Dict): Glyph {
    Glyph(Get(d.id, ""), Get(d.content, ""), Get(d.energy, 0.0), Get(d.activationCount, 0), Get(d.lastUpdateTime, 0),
          Get(d.parent1Id, ""), Get(d.parent2Id, ""))
  }

  /** A glyph survives the dictionary round trip except for its provenance, which comes back empty. */
  lemma RoundTrip(g: Glyph)
    ensures FromDict(ToDict(g)) == g.(parent1Id := "", parent2Id := "")
    ensures ToDict(FromDict(ToDict(g))) == ToDict(g)
  {
  }

  /** So a merged glyph with recorded parents does not survive it. */
  lemma ProvenanceLost(g: Glyph)
    requires g.parent1Id != "" || g.parent2Id != ""
    ensures FromDict(ToDict(g)) != g
  {
    RoundTrip(g);
  }

  /** Missing keys take the constructor's defaults: an empty dictionary gives Glyph(). */
  lemma EmptyDict()
    ensures FromDict(Dict(None, None, None, None, None, None, None)) == NewGlyph("", "", 0.0, 0, 0)
  {
  }

  /** The glyph as the merge rule sees it. */
  function Core(g: Glyph): MergeSpec.Glyph<string, char> {
    MergeSpec.Glyph(g.id, g.content, g.energy, g.activationCount, g.lastUpdateTime)
  }

  /** merge_via_python. */
  function MergeViaPython(g1: Glyph, g2: Glyph, sha256: string -> string): Glyph {
    var (primary, secondary) := if g1.energy >= g2.energy then (g1, g2) else (g2, g1);
    var content := primary.content + " + " + secondary.content;
    Glyph(sha256(content), content, primary.energy + secondary.energy,
          if primary.activationCount >= secondary.activationCount then primary.activationCount else secondary.activationCount,
          if primary.lastUpdateTime >= secondary.lastUpdateTime then primary.lastUpdateTime else secondary.lastUpdateTime,
          primary.id, secondary.id)
  }

  /** merge_via_python follows the merge rule exactly, parents leader first. */
  lemma MergeRefines(g1: Glyph, g2: Glyph, sha256: string -> string)
    ensures var r := MergeViaPython(g1, g2, sha256);
      MergeSpec.Merge(Core(g1), Core(g2), " + ", sha256) == MergeSpec.Merged(Core(r), r.parent1Id, r.parent2Id)
  {
  }
}
