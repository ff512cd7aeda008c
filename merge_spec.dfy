/**
 * The merge rule every merge implementation follows: the glyph with more
 * energy leads (the first one on a tie), the contents are joined by a
 * separator with the leader's first, energies add up, activation counts and
 * update times take their maximum, and the two parents are recorded leader
 * first. The identifier of the result is derived from its content by a
 * function each implementation chooses. Content elements and identifiers
 * are type parameters, so that character strings, byte buffers and
 * hardware words can all be compared against the one rule.
 */
module MergeSpec {

  datatype Glyph<I, C> = Glyph(id: I, content: seq<C>, energy: real, activations: int, lastUpdate: int)

  /** A merge result and its provenance. */
  datatype Merged<I, C> = Merged(glyph: Glyph<I, C>, parent1: I, parent2: I)

  function Max(a: int, b: int): (m: int)
    ensures m >= a && m >= b && (m == a || m == b)
  {
    if a >= b then a else b
  }

  /** Whether the first glyph leads the merge: ties go to the first. */
  predicate FirstLeads<I, C>(g1: Glyph<I, C>, g2: Glyph<I, C>) {
    g1.energy >= g2.energy
  }

  /** The leader's content, the separator, the other's content. */
  function Joined<I, C>(p: Glyph<I, C>, s: Glyph<I, C>, sep: seq<C>): seq<C> {
    p.content + sep + s.content
  }

  function Combine<I, C>(p: Glyph<I, C>, s: Glyph<I, C>, sep: seq<C>, idOf: seq<C> -> I): Merged<I, C> {
    var content := Joined(p, s, sep);
    Merged(Glyph(idOf(content), content, p.energy + s.energy, Max(p.activations, s.activations),
                 Max(p.lastUpdate, s.lastUpdate)),
           p.id, s.id)
  }

  /** The merge rule. */
  function Merge<I, C>(g1: Glyph<I, C>, g2: Glyph<I, C>, sep: seq<C>, idOf: seq<C> -> I): Merged<I, C> {
    if FirstLeads(g1, g2) then Combine(g1, g2, sep, idOf) else Combine(g2, g1, sep, idOf)
  }

  /**
   * What the rule promises: the leader has at least the other's energy and
   * is the first on a tie; its content comes first and it is the first
   * parent; the id is derived from the joined content; energy is the sum and
   * the counters are the maxima of the two.
   */
  lemma MergeShape<I, C>(g1: Glyph<I, C>, g2: Glyph<I, C>, sep: seq<C>, idOf: seq<C> -> I)
    ensures var m := Merge(g1, g2, sep, idOf);
      (g1.energy >= g2.energy ==> m.glyph.content == g1.content + sep + g2.content && m.parent1 == g1.id && m.parent2 == g2.id) &&
      (g1.energy < g2.energy ==> m.glyph.content == g2.content + sep + g1.content && m.parent1 == g2.id && m.parent2 == g1.id) &&
      m.glyph.id == idOf(m.glyph.content) &&
      |m.glyph.content| == |g1.content| + |sep| + |g2.content| &&
      m.glyph.energy == g1.energy + g2.energy &&
      m.glyph.activations >= g1.activations && m.glyph.activations >= g2.activations &&
      (m.glyph.activations == g1.activations || m.glyph.activations == g2.activations) &&
      m.glyph.lastUpdate >= g1.lastUpdate && m.glyph.lastUpdate >= g2.lastUpdate &&
      (m.glyph.lastUpdate == g1.lastUpdate || m.glyph.lastUpdate == g2.lastUpdate)
  {
  }

  /** When the energies differ the order of the arguments does not matter. */
  lemma MergeSymmetric<I, C>(g1: Glyph<I, C>, g2: Glyph<I, C>, sep: seq<C>, idOf: seq<C> -> I)
    requires g1.energy != g2.energy
    ensures Merge(g1, g2, sep, idOf) == Merge(g2, g1, sep, idOf)
  {
  }

  /** Whatever the order, the energy, counters and the set of parents agree. */
  lemma MergeOrderInsensitive<I, C>(g1: Glyph<I, C>, g2: Glyph<I, C>, sep: seq<C>, idOf: seq<C> -> I)
    ensures var a := Merge(g1, g2, sep, idOf); var b := Merge(g2, g1, sep, idOf);
      a.glyph.energy == b.glyph.energy && a.glyph.activations == b.glyph.activations &&
      a.glyph.lastUpdate == b.glyph.lastUpdate && {a.parent1, a.parent2} == {b.parent1, b.parent2}
  {
  }
}
