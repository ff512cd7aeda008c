/**
 * The HLS merge core of the FPGA accelerator: 512-bit ids held as sixteen
 * 32-bit words, a 256-byte content word with a 16-bit length, energy in
 * unsigned Q16.16 fixed point, and the stand-in hash replicated over the id.
 * The content is built byte by byte into a zeroed 256-byte word; the
 * secondary's bytes stop when the word is full, and the fixed-point sum
 * wraps at 2^32 like the hardware adder.
 */
module MergeHls {
  import opened SpuHash
  import MergeSpec
  import MergeRefCpp

  /** 2^32: the width of the Q16.16 energy and of the activation counter. */
  const Word: nat := 0x1_0000_0000

  /**
   * glyph_t: the id words, the content bytes, content_len (ap_uint<16>),
   * energy as its raw Q16.16 bits, activation_count (ap_uint<32>) and
   * last_update_time (ap_uint<64>).
   */
  datatype Glyph = Glyph(id: seq<bv32>, content: seq<bv8>, contentLen: nat, energy: nat,
                         activationCount: nat, lastUpdateTime: nat)

  /** merge_result_t: the merged glyph and the two parent ids. */
  datatype Merged = Merged(glyph: Glyph, parent1Id: seq<bv32>, parent2Id: seq<bv32>)

  /** The bit widths of glyph_t's fields. */
  predicate Valid(g: Glyph) {
    |g.id| == 16 && |g.content| == 256 && g.contentLen < 0x1_0000 && g.energy < Word &&
    g.activationCount < Word && g.lastUpdateTime < 0x1_0000_0000_0000_0000
  }

  function Min(a: nat, b: nat): (m: nat)
    ensures m <= a && m <= b && (m == a || m == b)
  {
    if a <= b then a else b
  }

  // ---------------------------------------------------------------------
  // hash_content

  /** What hash_content writes: the fold over the first min(len, 256) bytes, replicated over sixteen words. */
  function HashContentOf(data: seq<bv8>, len: nat): seq<bv32>
    requires |data| == 256
  {
    HlsWords(Hash(data[..Min(len, 256)], Unsigned))
  }

  /** hash_content: the 256-step fold that skips the bytes from `len` on, then the sixteen masked words. */
  method HashContent(data: seq<bv8>, len: nat) returns (hashOut: seq<bv32>)
    requires |data| == 256
    ensures hashOut == HashContentOf(data, len)
  {
    var h: bv32 := Seed;
    for i := 0 to 256
      invariant h == Hash(data[..Min(i, len)], Unsigned)
    {
      if i < len {
        assert data[..i + 1][..i] == data[..i];
        h := Mix(h, Unsigned(data[i]));
      }
    }
    hashOut := seq(16, _ => 0);
    for i := 0 to 16
      invariant |hashOut| == 16
      invariant forall k :: 0 <= k < i ==> hashOut[k] == HlsWords(h)[k]
    {
      hashOut := hashOut[i := h ^ (0x12345678 + i as bv32)];
      assert hashOut[i] == HlsWords(h)[i];
    }
    assert hashOut == HlsWords(h);
  }

  /** Every one of the sixteen id words gives the fold value back once its mask is removed. */
  lemma HashWordsDecode(data: seq<bv8>, len: nat)
    requires |data| == 256
    ensures var ws := HashContentOf(data, len);
      |ws| == 16 && forall i :: 0 <= i < 16 ==> ws[i] ^ (0x12345678 + i as bv32) == Hash(data[..Min(len, 256)], Unsigned)
  {
  }

  /** Bytes from `len` on do not reach the id. */
  lemma HashIgnoresTail(a: seq<bv8>, b: seq<bv8>, len: nat)
    requires |a| == 256 && |b| == 256
    requires a[..Min(len, 256)] == b[..Min(len, 256)]
    ensures HashContentOf(a, len) == HashContentOf(b, len)
  {
  }

  // ---------------------------------------------------------------------
  // merge_core

  /** The primary's bytes, " + ", then the secondary's bytes, before the cut at 256. */
  function Joined(p: Glyph, s: Glyph): (j: seq<bv8>)
    requires |p.content| == 256 && |s.content| == 256
    ensures |j| == Min(p.contentLen, 256) + 3 + Min(s.contentLen, 256)
  {
    p.content[..Min(p.contentLen, 256)] + MergeRefCpp.Sep + s.content[..Min(s.contentLen, 256)]
  }

  /** The final pos: the joined length cut at 256. */
  function MergedLen(p: Glyph, s: Glyph): nat
    requires |p.content| == 256 && |s.content| == 256
  {
    Min(|Joined(p, s)|, 256)
  }

  /** merged_content: the joined bytes that fit, over a zeroed word. */
  function Layout(p: Glyph, s: Glyph): (c: seq<bv8>)
    requires |p.content| == 256 && |s.content| == 256
    ensures |c| == 256
  {
    Joined(p, s)[..MergedLen(p, s)] + MergeRefCpp.Zeros(256 - MergedLen(p, s))
  }

  /** The result when p is the primary. */
  function Combine(p: Glyph, s: Glyph): Merged
    requires |p.content| == 256 && |s.content| == 256
  {
    var len := MergedLen(p, s);
    var content := Layout(p, s);
    Merged(Glyph(HashContentOf(content, len), content, len, (p.energy + s.energy) % Word,
                 MergeSpec.Max(p.activationCount, s.activationCount),
                 MergeSpec.Max(p.lastUpdateTime, s.lastUpdateTime)),
           p.id, s.id)
  }

  /** merge_core's result: g1 is primary when its energy is not below g2's. */
  function MergeOf(g1: Glyph, g2: Glyph): Merged
    requires |g1.content| == 256 && |g2.content| == 256
  {
    if g1.energy >= g2.energy then Combine(g1, g2) else Combine(g2, g1)
  }

  /**
   * The separator's three bytes are written at pos without a bound check, so
   * the primary's copied bytes must leave room for them.
   */
  predicate SeparatorFits(g1: Glyph, g2: Glyph) {
    Min(if g1.energy >= g2.energy then g1.contentLen else g2.contentLen, 256) <= 253
  }

  /** Writing b just past the prefix of a zero-padded word extends the prefix. */
  lemma WriteNext(pre: seq<bv8>, b: bv8, n: nat)
    requires n > 0
    ensures (pre + MergeRefCpp.Zeros(n))[|pre| := b] == pre + [b] + MergeRefCpp.Zeros(n - 1)
  {
    var l := (pre + MergeRefCpp.Zeros(n))[|pre| := b];
    var r := pre + [b] + MergeRefCpp.Zeros(n - 1);
    assert |l| == |r|;
    forall k | 0 <= k < |l|
      ensures l[k] == r[k]
    {
      if k > |pre| {
        assert l[k] == MergeRefCpp.Zeros(n)[k - |pre|];
        assert r[k] == MergeRefCpp.Zeros(n - 1)[k - |pre| - 1];
      }
    }
  }

  /** COPY_PRIMARY: the primary's first min(content_len, 256) bytes at the start of a zeroed word. */
  method CopyPrimary(primary: Glyph) returns (merged: seq<bv8>, pos: nat)
    requires |primary.content| == 256
    ensures pos == Min(primary.contentLen, 256)
    ensures merged == primary.content[..pos] + MergeRefCpp.Zeros(256 - pos)
  {
    merged := MergeRefCpp.Zeros(256);
    pos := 0;
    assert merged == primary.content[..0] + MergeRefCpp.Zeros(256);
    for i := 0 to 256
      invariant pos == Min(i, primary.contentLen)
      invariant merged == primary.content[..pos] + MergeRefCpp.Zeros(256 - pos)
    {
      if i < primary.contentLen {
        WriteNext(primary.content[..pos], primary.content[i], 256 - pos);
        assert primary.content[..pos + 1] == primary.content[..pos] + [primary.content[i]];
        merged := merged[pos := primary.content[i]];
        pos := pos + 1;
      }
    }
  }

  /**
   * Step 2 of merge_core: the primary's bytes, the separator at pos with no
   * bound check, then the secondary's bytes while pos is below 256.
   */
  method BuildContent(primary: Glyph, secondary: Glyph) returns (merged: seq<bv8>, pos: nat)
    requires |primary.content| == 256 && |secondary.content| == 256
    requires Min(primary.contentLen, 256) <= 253
    ensures merged == Layout(primary, secondary) && pos == MergedLen(primary, secondary)
  {
    merged, pos := CopyPrimary(primary);
    ghost var head := primary.content[..pos] + MergeRefCpp.Sep;
    WriteNext(primary.content[..pos], 0x20, 256 - pos);
    merged := merged[pos := 0x20];
    WriteNext(primary.content[..pos] + [0x20], 0x2B, 256 - pos - 1);
    merged := merged[pos + 1 := 0x2B];
    WriteNext(primary.content[..pos] + [0x20] + [0x2B], 0x20, 256 - pos - 2);
    merged := merged[pos + 2 := 0x20];
    pos := pos + 3;
    assert merged == head + secondary.content[..0] + MergeRefCpp.Zeros(256 - pos);

    for i := 0 to 256
      invariant pos == |head| + Min(Min(i, secondary.contentLen), 256 - |head|)
      invariant merged == head + secondary.content[..pos - |head|] + MergeRefCpp.Zeros(256 - pos)
    {
      if i < secondary.contentLen && pos < 256 {
        WriteNext(head + secondary.content[..i], secondary.content[i], 256 - pos);
        assert secondary.content[..i + 1] == secondary.content[..i] + [secondary.content[i]];
        merged := merged[pos := secondary.content[i]];
        pos := pos + 1;
      }
    }
    assert head + secondary.content[..pos - |head|] == Joined(primary, secondary)[..pos];
  }

  /** merge_core: the leader by energy, the content copied byte by byte, its hash, the sums and maxima. */
  method MergeCore(g1: Glyph, g2: Glyph) returns (result: Merged)
    requires Valid(g1) && Valid(g2)
    requires SeparatorFits(g1, g2)
    ensures result == MergeOf(g1, g2)
  {
    var primary, secondary;
    if g1.energy >= g2.energy {
      primary, secondary := g1, g2;
    } else {
      primary, secondary := g2, g1;
    }

    var merged, pos := BuildContent(primary, secondary);
    var mergedId := HashContent(merged, pos);
    var mergedEnergy := (primary.energy + secondary.energy) % Word;
    var mergedActivation := if primary.activationCount > secondary.activationCount
                            then primary.activationCount else secondary.activationCount;
    var mergedTime := if primary.lastUpdateTime > secondary.lastUpdateTime
                      then primary.lastUpdateTime else secondary.lastUpdateTime;
    result := Merged(Glyph(mergedId, merged, pos, mergedEnergy, mergedActivation, mergedTime),
                     primary.id, secondary.id);
  }

  // ---------------------------------------------------------------------
  // Against the merge rule

  /** The content bytes a glyph holds. */
  function Live(g: Glyph): seq<bv8>
    requires g.contentLen <= |g.content|
  {
    g.content[..g.contentLen]
  }

  /** The id of a content, as the merge rule's id function. */
  function IdOf(data: seq<bv8>): seq<bv32> {
    HlsWords(Hash(data, Unsigned))
  }

  /** The glyph as the merge rule sees it: the live bytes, and the energy as the Q16.16 value. */
  function Core(g: Glyph): MergeSpec.Glyph<seq<bv32>, bv8>
    requires g.contentLen <= |g.content|
  {
    MergeSpec.Glyph(g.id, Live(g), Q16(g.energy), g.activationCount, g.lastUpdateTime)
  }

  /** The value of raw Q16.16 bits. */
  function Q16(raw: nat): real {
    raw as real / 65536.0
  }

  /** The raw bits order the energies as the fixed-point values do, and add as they do. */
  lemma FixedPointOrder(a: nat, b: nat)
    ensures a >= b <==> Q16(a) >= Q16(b)
    ensures Q16(a + b) == Q16(a) + Q16(b)
  {
  }

  /** The result's live content is the joined content cut at 256, its id hashes exactly those bytes, and the rest of the word is zero. */
  lemma CombineContent(p: Glyph, s: Glyph)
    requires |p.content| == 256 && |s.content| == 256
    ensures var m := Combine(p, s).glyph;
      m.contentLen <= 256 && m.contentLen == Min(|Joined(p, s)|, 256) &&
      Live(m) == Joined(p, s)[..m.contentLen] && m.id == IdOf(Live(m)) &&
      forall k :: m.contentLen <= k < 256 ==> m.content[k] == 0
  {
    var m := Combine(p, s).glyph;
    assert m.content[..m.contentLen] == Joined(p, s)[..m.contentLen];
  }

  /**
   * The content is the merge rule's content cut at 256 bytes: always a
   * prefix of it, the whole of it exactly when it fits, and the id is the
   * hash of what was kept.
   */
  lemma ContentCut(g1: Glyph, g2: Glyph)
    requires Valid(g1) && Valid(g2) && g1.contentLen <= 256 && g2.contentLen <= 256
    ensures var m := MergeOf(g1, g2).glyph;
      var rule := MergeSpec.Merge(Core(g1), Core(g2), MergeRefCpp.Sep, IdOf).glyph;
      m.contentLen <= 256 &&
      Live(m) <= rule.content && |Live(m)| == Min(|rule.content|, 256) &&
      (Live(m) == rule.content <==> |rule.content| <= 256) &&
      m.id == IdOf(Live(m))
  {
    FixedPointOrder(g1.energy, g2.energy);
    if g1.energy >= g2.energy {
      CombineContent(g1, g2);
      assert Joined(g1, g2) == Core(g1).content + MergeRefCpp.Sep + Core(g2).content;
    } else {
      CombineContent(g2, g1);
      assert Joined(g2, g1) == Core(g2).content + MergeRefCpp.Sep + Core(g1).content;
    }
  }

  /**
   * The fixed-point sum wraps: the result's energy is the rule's sum exactly
   * when the raw sum fits 32 bits; when it does not, the result has less
   * energy than either input.
   */
  lemma EnergyWraps(g1: Glyph, g2: Glyph)
    requires Valid(g1) && Valid(g2)
    ensures var m := MergeOf(g1, g2).glyph;
      (Q16(m.energy) == Q16(g1.energy) + Q16(g2.energy) <==> g1.energy + g2.energy < Word) &&
      (g1.energy + g2.energy >= Word ==> m.energy < g1.energy && m.energy < g2.energy)
  {
    var m := MergeOf(g1, g2).glyph;
    var sum := g1.energy + g2.energy;
    assert m.energy == sum % Word;
    if sum >= Word {
      assert m.energy == sum - Word;
    } else {
      assert m.energy == sum;
    }
  }

  /**
   * When the content fits the word and the energy sum fits 32 bits,
   * merge_core gives the merge rule's glyph and parents.
   */
  lemma MergeRefines(g1: Glyph, g2: Glyph)
    requires Valid(g1) && Valid(g2)
    requires g1.contentLen + 3 + g2.contentLen <= 256
    requires g1.energy + g2.energy < Word
    ensures var m := MergeOf(g1, g2);
      SeparatorFits(g1, g2) &&
      MergeSpec.Merge(Core(g1), Core(g2), MergeRefCpp.Sep, IdOf) == MergeSpec.Merged(Core(m.glyph), m.parent1Id, m.parent2Id)
  {
    ContentCut(g1, g2);
    EnergyWraps(g1, g2);
    FixedPointOrder(g1.energy, g2.energy);
  }
}
