/**
 * The hardware-oriented merge reference (spu): the same fixed-size struct
 * merge as the runtime reference, with a 64-byte id and the hash of
 * sha256.h, and a batch merge over an array of pairs.
 *
 * The struct's id buffer holds exactly the 64 digits of the hash, but
 * sha256_hash ends its output with sprintf's terminating NUL, a 65th byte.
 * With the fields laid out in declaration order that byte lands in
 * content[0]. MergeAsWritten models that; Merge, which the batch uses,
 * keeps the 64 digits in the id and leaves the content alone.
 */
module MergeReferenceCpp {
  import opened SpuHash
  import MergeSpec
  import MergeRefCpp

  const IdSize: nat := 64
  const ContentSize: nat := 256

  /**
   * The struct: id[64], content[256], content_len, energy, activation_count,
   * last_update_time, parent1_id[64], parent2_id[64]. It has the fields of
   * the runtime reference's struct; only the id buffers are one byte shorter.
   */
  type Glyph = MergeRefCpp.Glyph

  /** The buffers have their sizes and the counters fit their widths. */
  predicate Valid(g: Glyph) {
    |g.id| == IdSize && |g.content| == ContentSize && |g.parent1Id| == IdSize && |g.parent2Id| == IdSize &&
    g.contentLen <= ContentSize && g.activationCount < 0x1_0000_0000 && g.lastUpdateTime < 0x1_0000_0000_0000_0000
  }

  /** Whether the joined content fits the content buffer: merge does not check. */
  predicate Fits(g1: Glyph, g2: Glyph) {
    g1.contentLen + |MergeRefCpp.Sep| + g2.contentLen <= ContentSize
  }

  /** What steps 2 to 6 of merge need: every copy stays inside its buffer. */
  predicate Room(p: Glyph, s: Glyph, result: Glyph) {
    p.contentLen <= |p.content| && s.contentLen <= |s.content| &&
    p.contentLen + |MergeRefCpp.Sep| + s.contentLen <= |result.content| && 0 < |result.content| &&
    |p.id| == IdSize && |s.id| == IdSize
  }

  /** sha256_hash of sha256.h: the 64 digits of the sign-extending fold and sprintf's terminating NUL. */
  method Sha256Hash(data: seq<bv8>, len: nat) returns (output: seq<bv8>)
    requires len <= |data|
    ensures output == HeaderDigest(data[..len]) + [0]
  {
    var h := HashLoop(data, len, SignExtended);
    output := Digest(h) + [0];
  }

  /** sha256_string: 64 digit characters, read back from a NUL-terminated buffer. */
  method Sha256String(data: seq<bv8>) returns (s: seq<bv8>)
    ensures s == HeaderDigest(data) && |s| == 64
  {
    var buffer := Sha256Hash(data, |data|);
    s := MergeRefCpp.CStr(buffer);
    assert data[..|data|] == data;
    DigestHasNoNul(Hash(data, SignExtended));
    MergeRefCpp.CStrTerminated(HeaderDigest(data), []);
    assert buffer == HeaderDigest(data) + [0] + [];
  }

  /** The 64 digits merge computes for the joined content. */
  function JoinedId(p: Glyph, s: Glyph, buf: seq<bv8>): seq<bv8>
    requires p.contentLen <= |p.content| && s.contentLen <= |s.content|
    requires p.contentLen + |MergeRefCpp.Sep| + s.contentLen <= |buf|
  {
    HeaderDigest(MergeRefCpp.JoinedContent(p, s, buf)[..p.contentLen + |MergeRefCpp.Sep| + s.contentLen])
  }

  /** Merge with the leader p and the other glyph s: the id holds the 64 digits and the content is the joined content. */
  function Combine(p: Glyph, s: Glyph, result: Glyph): Glyph
    requires Room(p, s, result)
  {
    MergeRefCpp.Glyph(JoinedId(p, s, result.content), MergeRefCpp.JoinedContent(p, s, result.content),
          p.contentLen + |MergeRefCpp.Sep| + s.contentLen, p.energy + s.energy,
          MergeSpec.Max(p.activationCount, s.activationCount), MergeSpec.Max(p.lastUpdateTime, s.lastUpdateTime),
          p.id, s.id)
  }

  /** The value merge leaves in the result, with the id's NUL kept out of the content. */
  function MergeOf(g1: Glyph, g2: Glyph, result: Glyph): Glyph
    requires Valid(g1) && Valid(g2) && Valid(result) && Fits(g1, g2)
  {
    if g1.energy >= g2.energy then Combine(g1, g2, result) else Combine(g2, g1, result)
  }

  /** merge: the leader by energy (g1 on a tie), then steps 2 to 6 with it. */
  method Merge(g1: Glyph, g2: Glyph, result: Glyph) returns (r: Glyph)
    requires Valid(g1) && Valid(g2) && Valid(result) && Fits(g1, g2)
    ensures r == MergeOf(g1, g2, result)
  {
    if g1.energy >= g2.energy {
      r := MergeOrdered(g1, g2, result);
    } else {
      r := MergeOrdered(g2, g1, result);
    }
  }

  /** Steps 2 to 6 of merge: join, hash into the id, add, take maxima, copy the 64-byte parent ids. */
  method MergeOrdered(primary: Glyph, secondary: Glyph, result: Glyph) returns (r: Glyph)
    requires Room(primary, secondary, result)
    ensures r == Combine(primary, secondary, result)
  {
    var content := MergeRefCpp.JoinedContent(primary, secondary, result.content);
    var pos := primary.contentLen + |MergeRefCpp.Sep| + secondary.contentLen;
    var output := Sha256Hash(content, pos);
    assert output[..IdSize] == JoinedId(primary, secondary, result.content);
    r := MergeRefCpp.Glyph(output[..IdSize], content, pos, primary.energy + secondary.energy,
               MergeSpec.Max(primary.activationCount, secondary.activationCount),
               MergeSpec.Max(primary.lastUpdateTime, secondary.lastUpdateTime),
               primary.id, secondary.id);
  }

  /** Combine as the code is written: sprintf's 65th byte, the NUL, overwrites content[0]. */
  function CombineAsWritten(p: Glyph, s: Glyph, result: Glyph): Glyph
    requires Room(p, s, result)
  {
    var output := JoinedId(p, s, result.content) + [0];
    var m := Combine(p, s, result);
    m.(id := output[..IdSize], content := m.content[0 := output[IdSize]])
  }

  /** merge as written. */
  function MergeAsWritten(g1: Glyph, g2: Glyph, result: Glyph): Glyph
    requires Valid(g1) && Valid(g2) && Valid(result) && Fits(g1, g2)
  {
    if g1.energy >= g2.energy then CombineAsWritten(g1, g2, result) else CombineAsWritten(g2, g1, result)
  }

  /**
   * The code as written differs from the intended merge in one byte: the
   * first byte of the merged content is NUL, so the merged content is lost
   * whenever it does not itself begin with a NUL.
   */
  lemma NulClobbersContent(g1: Glyph, g2: Glyph, result: Glyph)
    requires Valid(g1) && Valid(g2) && Valid(result) && Fits(g1, g2)
    ensures var w := MergeAsWritten(g1, g2, result); var m := MergeOf(g1, g2, result);
      w.content == m.content[0 := 0] && w.id == m.id &&
      MergeRefCpp.Live(w)[0] == 0 && (MergeRefCpp.Live(m)[0] != 0 ==> MergeRefCpp.Live(w) != MergeRefCpp.Live(m))
  {
    var (p, s) := if g1.energy >= g2.energy then (g1, g2) else (g2, g1);
    assert (JoinedId(p, s, result.content) + [0])[..IdSize] == JoinedId(p, s, result.content);
  }

  /**
   * make_glyph of the merge test: id and content copied with strncpy, which
   * pads with NULs; the parent buffers are never written and hold whatever
   * `garbage` holds.
   */
  function TestGlyph(id: seq<bv8>, content: seq<bv8>, energy: real, garbage: seq<bv8>): Glyph
    requires |id| <= IdSize && |content| <= ContentSize && |garbage| == ContentSize
  {
    MergeRefCpp.Glyph(id + MergeRefCpp.Zeros(IdSize - |id|), content + MergeRefCpp.Zeros(ContentSize - |content|), |content|,
          energy, 0, 0, garbage[..IdSize], garbage[..IdSize])
  }

  const Content1: seq<bv8> := [0x63, 0x6f, 0x6e, 0x74, 0x65, 0x6e, 0x74, 0x31]
  const Content2: seq<bv8> := [0x63, 0x6f, 0x6e, 0x74, 0x65, 0x6e, 0x74, 0x32]

  /**
   * On the test's own glyphs the merged content should start with
   * "content2", the leader's; as written its first byte is NUL instead, so
   * the test's search for "content2" in the result fails.
   */
  lemma TestMergeLosesLeader(result: Glyph)
    requires Valid(result)
    ensures var g1 := TestGlyph([0x69, 0x64, 0x31], Content1, 2.0, result.content);
      var g2 := TestGlyph([0x69, 0x64, 0x32], Content2, 3.0, result.content);
      Valid(g1) && Valid(g2) && Fits(g1, g2) &&
      MergeRefCpp.Live(MergeOf(g1, g2, result))[..8] == Content2 &&
      MergeRefCpp.Live(MergeAsWritten(g1, g2, result))[..8] != Content2
  {
    var g1 := TestGlyph([0x69, 0x64, 0x31], Content1, 2.0, result.content);
    var g2 := TestGlyph([0x69, 0x64, 0x32], Content2, 3.0, result.content);
    assert MergeRefCpp.Live(g2) == Content2;
    MergeRefCpp.JoinedLayout(g2, g1, result.content);
    NulClobbersContent(g1, g2, result);
    assert MergeRefCpp.Live(MergeAsWritten(g1, g2, result))[..8][0] == 0;
  }

  /** The glyph as the merge rule sees it. */
  function Core(g: Glyph): MergeSpec.Glyph<seq<bv8>, bv8>
    requires g.contentLen <= |g.content|
  {
    MergeSpec.Glyph(g.id, MergeRefCpp.Live(g), g.energy, g.activationCount, g.lastUpdateTime)
  }

  /** Combine follows the merge rule's Combine. */
  lemma CombineRefines(p: Glyph, s: Glyph, result: Glyph)
    requires Valid(p) && Valid(s) && Valid(result) && Fits(p, s)
    ensures var m := Combine(p, s, result);
      Valid(m) && MergeSpec.Combine(Core(p), Core(s), MergeRefCpp.Sep, HeaderDigest) == MergeSpec.Merged(Core(m), m.parent1Id, m.parent2Id)
  {
    var m := Combine(p, s, result);
    var joined := MergeSpec.Joined(Core(p), Core(s), MergeRefCpp.Sep);
    MergeRefCpp.JoinedLayout(p, s, result.content);
    assert MergeRefCpp.Live(m) == joined;
    assert m.id == HeaderDigest(joined);
  }

  /** merge, with the NUL kept out of the content, follows the merge rule with the sha256.h digest as id. */
  lemma MergeRefines(g1: Glyph, g2: Glyph, result: Glyph)
    requires Valid(g1) && Valid(g2) && Valid(result) && Fits(g1, g2)
    ensures var m := MergeOf(g1, g2, result);
      Valid(m) && MergeSpec.Merge(Core(g1), Core(g2), MergeRefCpp.Sep, HeaderDigest) == MergeSpec.Merged(Core(m), m.parent1Id, m.parent2Id)
  {
    if g1.energy >= g2.energy {
      CombineRefines(g1, g2, result);
    } else {
      CombineRefines(g2, g1, result);
    }
  }

  /** The i-th pair of the batch input is there and can be merged. */
  predicate PairReady(pairs: seq<Glyph>, i: nat) {
    2 * i + 1 < |pairs| && Valid(pairs[2 * i]) && Valid(pairs[2 * i + 1]) && Fits(pairs[2 * i], pairs[2 * i + 1])
  }

  /** Slot i of the batch output after the batch: the merge of pair i written over what the slot held. */
  predicate MergedAt(pairs: seq<Glyph>, i: nat, before: Glyph, after: Glyph) {
    PairReady(pairs, i) && Valid(before) && after == MergeOf(pairs[2 * i], pairs[2 * i + 1], before)
  }

  /** The first i output slots hold their merged pairs. */
  predicate MergedBelow(pairs: seq<Glyph>, before: seq<Glyph>, after: seq<Glyph>, i: nat) {
    i <= |before| && i <= |after| && forall k :: 0 <= k < i ==> MergedAt(pairs, k, before[k], after[k])
  }

  /** Writing the merge of pair i into slot i extends MergedBelow by one slot. */
  lemma MergedBelowStep(pairs: seq<Glyph>, before: seq<Glyph>, after: seq<Glyph>, i: nat, merged: Glyph)
    requires MergedBelow(pairs, before, after, i) && i < |before| && i < |after|
    requires MergedAt(pairs, i, before[i], merged)
    ensures MergedBelow(pairs, before, after[i := merged], i + 1)
  {
    forall k | 0 <= k < i + 1
      ensures MergedAt(pairs, k, before[k], after[i := merged][k])
    {
      if k < i {
        assert after[i := merged][k] == after[k];
      }
    }
  }

  /** merge_batch: results[i] becomes the merge of pairs[2i] and pairs[2i+1] for each i below count; nothing else changes. */
  method MergeBatch(pairs: seq<Glyph>, results: array<Glyph>, count: nat)
    requires count <= results.Length
    requires forall i :: 0 <= i < count ==> PairReady(pairs, i)
    requires forall i :: 0 <= i < results.Length ==> Valid(results[i])
    modifies results
    ensures MergedBelow(pairs, old(results[..]), results[..], count)
    ensures results[count..] == old(results[count..])
  {
    var i := 0;
    while i < count
      invariant i <= count
      invariant MergedBelow(pairs, old(results[..]), results[..], i)
      invariant results[i..] == old(results[i..])
    {
      var before := results[i];
      assert results[i..][0] == before;
      assert PairReady(pairs, i) && before == old(results[..])[i] && Valid(before);
      var merged := Merge(pairs[2 * i], pairs[2 * i + 1], before);
      assert MergedAt(pairs, i, before, merged);
      ghost var prev := results[..];
      MergedBelowStep(pairs, old(results[..]), prev, i, merged);
      results[i] := merged;
      assert results[..] == prev[i := merged];
      assert results[i + 1..] == prev[i + 1..];
      i := i + 1;
    }
  }

  /** Test 2 and test 3 of the merge test: energy is conserved and the stronger glyph's content comes first. */
  lemma MergeConserves(g1: Glyph, g2: Glyph, result: Glyph)
    requires Valid(g1) && Valid(g2) && Valid(result) && Fits(g1, g2)
    ensures var m := MergeOf(g1, g2, result);
      m.energy == g1.energy + g2.energy &&
      (g1.energy >= g2.energy ==> MergeRefCpp.Live(m)[..g1.contentLen] == MergeRefCpp.Live(g1)) &&
      (g1.energy < g2.energy ==> MergeRefCpp.Live(m)[..g2.contentLen] == MergeRefCpp.Live(g2))
  {
    if g1.energy >= g2.energy {
      CombineLeads(g1, g2, result);
    } else {
      CombineLeads(g2, g1, result);
    }
  }

  /**
   * Test 2 and test 3 against merge as written: energy is conserved and the
   * merged content is the corrected one from its second byte on, but its
   * first byte is NUL.
   */
  lemma MergeConservesAsWritten(g1: Glyph, g2: Glyph, result: Glyph)
    requires Valid(g1) && Valid(g2) && Valid(result) && Fits(g1, g2)
    ensures var w := MergeAsWritten(g1, g2, result); var m := MergeOf(g1, g2, result);
      w.energy == g1.energy + g2.energy &&
      0 < |MergeRefCpp.Live(w)| == |MergeRefCpp.Live(m)| &&
      MergeRefCpp.Live(w)[0] == 0 && MergeRefCpp.Live(w)[1..] == MergeRefCpp.Live(m)[1..]
  {
    NulClobbersContent(g1, g2, result);
    MergeConserves(g1, g2, result);
  }

  /** The merged content of Combine is the leader's, the separator and the other's. */
  lemma CombineLeads(p: Glyph, s: Glyph, result: Glyph)
    requires Room(p, s, result)
    ensures var m := Combine(p, s, result);
      m.contentLen <= |m.content| && MergeRefCpp.Live(m) == MergeRefCpp.Live(p) + (MergeRefCpp.Sep + MergeRefCpp.Live(s))
  {
    MergeRefCpp.JoinedLayout(p, s, result.content);
  }
}
