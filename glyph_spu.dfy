/**
 * The glyph-spu service's software merge: the merge rule over strings, with
 * an id that is the clock reading in nanoseconds printed as 64 hexadecimal
 * digits, and the offload response that reports the parents in request
 * order. The clock reading is a parameter.
 */
module GlyphSpu {
  import MergeSpec

  datatype Glyph = Glyph(id: string, content: string, energy: real, activationCount: nat, lastUpdateTime: nat)

  datatype MergeRequest = MergeRequest(glyph1: Glyph, glyph2: Glyph)

  datatype MergeResponse = MergeResponse(mergedState: Glyph, parent1Id: string, parent2Id: string)

  /** The lower-case hexadecimal digit for d. */
  function HexChar(d: nat): (c: char)
    requires d < 16
    ensures ('0' <= c <= '9') || ('a' <= c <= 'f')
  {
    if d < 10 then '0' + d as char else 'a' + (d - 10) as char
  }

  /** The value of a hexadecimal digit. */
  function CharValue(c: char): nat {
    if '0' <= c <= '9' then (c - '0') as nat
    else if 'a' <= c <= 'f' then (c - 'a') as nat + 10
    else 0
  }

  /** n in hexadecimal with no leading zeros ("0" for zero). */
  function Hex(n: nat): (s: string)
    ensures |s| >= 1
  {
    if n < 16 then [HexChar(n)] else Hex(n / 16) + [HexChar(n % 16)]
  }

  /** Reads hexadecimal digits, most significant first. */
  function ParseHex(s: string): nat {
    if |s| == 0 then 0 else ParseHex(s[..|s| - 1]) * 16 + CharValue(s[|s| - 1])
  }

  function Zeros(n: nat): (z: string)
    ensures |z| == n && forall i :: 0 <= i < n ==> z[i] == '0'
  {
    seq(n, _ => '0')
  }

  /** format!("{:064x}", n): the hexadecimal digits, padded on the left with zeros to 64. */
  function Format064x(n: nat): string {
    var digits := Hex(n);
    if |digits| >= 64 then digits else Zeros(64 - |digits|) + digits
  }

  /** 16 to the power k. */
  function Pow16(k: nat): (p: nat)
    ensures p >= 1
  {
    if k == 0 then 1 else 16 * Pow16(k - 1)
  }

  lemma DigitRoundTrip(d: nat)
    requires d < 16
    ensures CharValue(HexChar(d)) == d
  {
  }

  /** Hex is undone by ParseHex. */
  lemma {:induction false} HexRoundTrip(n: nat)
    ensures ParseHex(Hex(n)) == n
  {
    DigitRoundTrip(n % 16);
    if n >= 16 {
      HexRoundTrip(n / 16);
      var s := Hex(n);
      assert s[..|s| - 1] == Hex(n / 16);
    } else {
      assert [HexChar(n)][..0] == [];
    }
  }

  /** Leading zeros do not change the value read. */
  lemma {:induction false} LeadingZeros(k: nat, s: string)
    ensures ParseHex(Zeros(k) + s) == ParseHex(s)
    decreases |s|
  {
    if |s| == 0 {
      ZerosParse(k);
      assert Zeros(k) + s == Zeros(k);
    } else {
      var t := Zeros(k) + s;
      assert t[..|t| - 1] == Zeros(k) + s[..|s| - 1];
      LeadingZeros(k, s[..|s| - 1]);
    }
  }

  lemma {:induction false} ZerosParse(k: nat)
    ensures ParseHex(Zeros(k)) == 0
  {
    if k > 0 {
      assert Zeros(k)[..k - 1] == Zeros(k - 1);
      ZerosParse(k - 1);
    }
  }

  /** A number below 16^k has at most k digits. */
  lemma {:induction false} HexLength(n: nat, k: nat)
    requires n < Pow16(k)
    ensures |Hex(n)| <= k || (n == 0 && k == 0)
  {
    if n >= 16 {
      assert k >= 2 by {
        assert Pow16(0) == 1 && Pow16(1) == 16;
      }
      assert n / 16 < Pow16(k - 1);
      HexLength(n / 16, k - 1);
    } else if k == 0 {
      assert Pow16(0) == 1;
    }
  }

  /** The id printed for a clock reading gives the reading back, so distinct readings give distinct ids. */
  lemma Format064xRoundTrip(n: nat)
    ensures ParseHex(Format064x(n)) == n
  {
    HexRoundTrip(n);
    if |Hex(n)| < 64 {
      LeadingZeros(64 - |Hex(n)|, Hex(n));
    }
  }

  /** A u128 nanosecond reading always prints as exactly 64 characters. */
  lemma Format064xLength(n: nat)
    requires n < Pow16(32)
    ensures |Format064x(n)| == 64
  {
    HexLength(n, 32);
  }

  /** merge_glyphs with the clock reading `nanos`. */
  function MergeGlyphs(g1: Glyph, g2: Glyph, nanos: nat): Glyph {
    var (primary, secondary) := if g1.energy >= g2.energy then (g1, g2) else (g2, g1);
    Glyph(Format064x(nanos), primary.content + " + " + secondary.content, primary.energy + secondary.energy,
          MergeSpec.Max(primary.activationCount, secondary.activationCount), MergeSpec.Max(primary.lastUpdateTime, secondary.lastUpdateTime))
  }

  /** offload_merge: the merged state, and the request's two ids in request order. */
  function OffloadMerge(req: MergeRequest, nanos: nat): MergeResponse {
    MergeResponse(MergeGlyphs(req.glyph1, req.glyph2, nanos), req.glyph1.id, req.glyph2.id)
  }

  /** The glyph as the merge rule sees it. */
  function Core(g: Glyph): MergeSpec.Glyph<string, char> {
    MergeSpec.Glyph(g.id, g.content, g.energy, g.activationCount, g.lastUpdateTime)
  }

  /** The clock-derived id, as an id function that ignores the content. */
  function ClockId(nanos: nat): string -> string {
    _ => Format064x(nanos)
  }

  /** merge_glyphs follows the merge rule's glyph, with an id that does not depend on the content. */
  lemma MergeRefines(g1: Glyph, g2: Glyph, nanos: nat)
    ensures MergeSpec.Merge(Core(g1), Core(g2), " + ", ClockId(nanos)).glyph == Core(MergeGlyphs(g1, g2, nanos))
  {
  }

  /**
   * The id says nothing about the content: merges at the same instant share
   * their id whatever they merge, and merges at different instants of the
   * same glyphs get different ids.
   */
  lemma IdFromClock(a: Glyph, b: Glyph, c: Glyph, d: Glyph, t1: nat, t2: nat)
    ensures MergeGlyphs(a, b, t1).id == MergeGlyphs(c, d, t1).id
    ensures t1 != t2 ==> MergeGlyphs(a, b, t1).id != MergeGlyphs(a, b, t2).id
  {
    Format064xRoundTrip(t1);
    Format064xRoundTrip(t2);
  }

  /**
   * offload_merge reports the parents in request order: they are the merge
   * rule's parents (leader first) exactly when glyph1 leads or the two ids
   * are equal.
   */
  lemma OffloadParents(req: MergeRequest, nanos: nat)
    ensures var r := OffloadMerge(req, nanos);
      var m := MergeSpec.Merge(Core(req.glyph1), Core(req.glyph2), " + ", ClockId(nanos));
      (r.parent1Id == m.parent1 && r.parent2Id == m.parent2) <==>
      (req.glyph1.energy >= req.glyph2.energy || req.glyph1.id == req.glyph2.id)
  {
  }
}
