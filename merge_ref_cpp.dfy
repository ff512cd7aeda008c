/**
 * The C++ reference merge (runtime/spu): fixed-size glyph structs, a merge
 * that writes into a result struct, and the stand-in hash printed as 64
 * hexadecimal digits. Structs are values here: merging gives the new value
 * of the result struct.
 */
module MergeRefCpp {
  import opened SpuHash
  import MergeSpec

  const IdSize: nat := 65
  const ContentSize: nat := 256
  /** The separator " + " as bytes. */
  const Sep: seq<bv8> := [0x20, 0x2B, 0x20]

  /**
   * The Glyph struct: id[65], content[256] with content_len (uint16_t),
   * energy (double), activation_count (uint32_t), last_update_time
   * (uint64_t) and the provenance buffers parent1_id[65], parent2_id[65].
   */
  datatype Glyph = Glyph(
    id: seq<bv8>,
    content: seq<bv8>,
    contentLen: nat,
    energy: real,
    activationCount: nat,
    lastUpdateTime: nat,
    parent1Id: seq<bv8>,
    parent2Id: seq<bv8>)

  /** The buffers have their sizes, the counters fit their widths, and the id buffers end in a NUL. */
  predicate Valid(g: Glyph) {
    |g.id| == IdSize && |g.content| == ContentSize && |g.parent1Id| == IdSize && |g.parent2Id| == IdSize &&
    g.contentLen <= ContentSize && g.activationCount < 0x1_0000_0000 && g.lastUpdateTime < 0x1_0000_0000_0000_0000 &&
    g.id[IdSize - 1] == 0 && g.parent1Id[IdSize - 1] == 0 && g.parent2Id[IdSize - 1] == 0
  }

  function Zeros(n: nat): (z: seq<bv8>)
    ensures |z| == n && forall i :: 0 <= i < n ==> z[i] == 0
  {
    seq(n, _ => 0)
  }

  /** Glyph(): every buffer and field zero. */
  function NewGlyph(): (g: Glyph)
    ensures Valid(g)
  {
    Glyph(Zeros(IdSize), Zeros(ContentSize), 0, 0.0, 0, 0, Zeros(IdSize), Zeros(IdSize))
  }

  /** The C string a buffer holds: the bytes before its first NUL. */
  function CStr(b: seq<bv8>): (s: seq<bv8>)
    ensures s <= b && 0 !in s
    ensures |s| < |b| ==> b[|s|] == 0
  {
    if |b| == 0 || b[0] == 0 then [] else [b[0]] + CStr(b[1..])
  }

  /** A string followed by its terminator reads back as itself. */
  lemma {:induction false} CStrTerminated(s: seq<bv8>, rest: seq<bv8>)
    requires 0 !in s
    ensures CStr(s + [0] + rest) == s
  {
    if |s| > 0 {
      assert (s + [0] + rest)[1..] == s[1..] + [0] + rest;
      CStrTerminated(s[1..], rest);
    }
  }

  /** strncpy(dst, src, n): src's string cut at n and padded with NULs to n; dst from n on is untouched. */
  function StrNCpy(dst: seq<bv8>, src: seq<bv8>, n: nat): (r: seq<bv8>)
    requires n <= |dst|
    ensures |r| == |dst|
  {
    var k := if |CStr(src)| < n then |CStr(src)| else n;
    CStr(src)[..k] + Zeros(n - k) + dst[n..]
  }

  /** Copying an id of at most 64 characters into a buffer whose last byte is NUL keeps the id. */
  lemma StrNCpyKeeps(dst: seq<bv8>, src: seq<bv8>)
    requires |dst| == IdSize && dst[IdSize - 1] == 0 && |src| == IdSize && src[IdSize - 1] == 0
    ensures CStr(StrNCpy(dst, src, IdSize - 1)) == CStr(src)
  {
    var s := CStr(src);
    var r := StrNCpy(dst, src, IdSize - 1);
    assert |s| < IdSize;
    if |s| < IdSize - 1 {
      assert r == s + [0] + (Zeros(IdSize - 1 - |s|)[1..] + dst[IdSize - 1..]);
      CStrTerminated(s, Zeros(IdSize - 1 - |s|)[1..] + dst[IdSize - 1..]);
    } else {
      assert r == s + [0] + [];
      CStrTerminated(s, []);
    }
  }

  /** sha256_hash(data, len, output): the 64 digits and snprintf's terminating NUL. */
  method Sha256Hash(data: seq<bv8>, len: nat) returns (output: seq<bv8>)
    requires len <= |data|
    ensures output == RefDigest(data[..len]) + [0]
  {
    var h := HashLoop(data, len, Unsigned);
    output := Digest(h) + [0];
  }

  /** Whether the joined content fits the result's content buffer. */
  predicate Fits(g1: Glyph, g2: Glyph) {
    g1.contentLen + |Sep| + g2.contentLen <= ContentSize
  }

  /** memcpy(buf + at, bytes, |bytes|): the bytes replace that stretch of the buffer. */
  function Spliced(buf: seq<bv8>, at: nat, bytes: seq<bv8>): (r: seq<bv8>)
    requires at + |bytes| <= |buf|
    ensures |r| == |buf|
  {
    buf[..at] + bytes + buf[at + |bytes|..]
  }

  /** The live bytes of a glyph's content. */
  function Live(g: Glyph): seq<bv8>
    requires g.contentLen <= |g.content|
  {
    g.content[..g.contentLen]
  }

  /** Step 2 of merge: the leader's content, the separator and the other's content written over the result's buffer. */
  function JoinedContent(p: Glyph, s: Glyph, buf: seq<bv8>): seq<bv8>
    requires p.contentLen <= |p.content| && s.contentLen <= |s.content|
    requires p.contentLen + |Sep| + s.contentLen <= |buf|
  {
    Spliced(Spliced(Spliced(buf, 0, Live(p)), p.contentLen, Sep), p.contentLen + |Sep|, Live(s))
  }

  /** The joined bytes come first and the rest of the buffer is left as it was. */
  lemma JoinedLayout(p: Glyph, s: Glyph, buf: seq<bv8>)
    requires p.contentLen <= |p.content| && s.contentLen <= |s.content|
    requires p.contentLen + |Sep| + s.contentLen <= |buf|
    ensures var n := p.contentLen + |Sep| + s.contentLen;
      JoinedContent(p, s, buf)[..n] == Live(p) + Sep + Live(s) &&
      JoinedContent(p, s, buf)[n..] == buf[n..]
  {
    var n := p.contentLen + |Sep| + s.contentLen;
    var a := Spliced(buf, 0, Live(p));
    var b := Spliced(a, p.contentLen, Sep);
    assert a == Live(p) + buf[p.contentLen..];
    assert b == Live(p) + Sep + buf[p.contentLen + |Sep|..];
    assert JoinedContent(p, s, buf) == Live(p) + Sep + Live(s) + buf[n..];
  }

  /** Step 3 of merge: the id buffer sha256_hash fills from the joined content. */
  function JoinedId(p: Glyph, s: Glyph, buf: seq<bv8>): seq<bv8>
    requires p.contentLen <= |p.content| && s.contentLen <= |s.content|
    requires p.contentLen + |Sep| + s.contentLen <= |buf|
  {
    RefDigest(JoinedContent(p, s, buf)[..p.contentLen + |Sep| + s.contentLen]) + [0]
  }

  /** What steps 2 to 6 of merge need: the live contents, the joined content and the parent copies stay inside their buffers. */
  predicate Room(p: Glyph, s: Glyph, result: Glyph) {
    p.contentLen <= |p.content| && s.contentLen <= |s.content| &&
    p.contentLen + |Sep| + s.contentLen <= |result.content| &&
    IdSize - 1 <= |result.parent1Id| && IdSize - 1 <= |result.parent2Id|
  }

  /** merge with the leader p and the other glyph s, writing over `result`. */
  function Combine(p: Glyph, s: Glyph, result: Glyph): Glyph
    requires Room(p, s, result)
  {
    Glyph(JoinedId(p, s, result.content), JoinedContent(p, s, result.content), p.contentLen + |Sep| + s.contentLen,
          p.energy + s.energy,
          MergeSpec.Max(p.activationCount, s.activationCount), MergeSpec.Max(p.lastUpdateTime, s.lastUpdateTime),
          StrNCpy(result.parent1Id, p.id, IdSize - 1), StrNCpy(result.parent2Id, s.id, IdSize - 1))
  }

  /** merge(g1, g2, result): the value the result struct has afterwards. */
  function MergeOf(g1: Glyph, g2: Glyph, result: Glyph): Glyph
    requires Valid(g1) && Valid(g2) && Valid(result) && Fits(g1, g2)
  {
    if g1.energy >= g2.energy then Combine(g1, g2, result) else Combine(g2, g1, result)
  }

  /** merge: the leader by energy (g1 on a tie), then steps 2 to 6 with it. */
  method Merge(g1: Glyph, g2: Glyph, result: Glyph) returns (r: Glyph)
    requires Valid(g1) && Valid(g2) && Valid(result) && Fits(g1, g2)
    ensures r == MergeOf(g1, g2, result)
  {
    if g1.energy >= g2.energy {
      r := MergeOrdered(g1, g2, result);
    } else {
      r := MergeOrdered(g2, g1, result);
    }
  }

  /** Steps 2 to 6 of merge: join the contents around the separator, hash them, add, take maxima, record the parents. */
  method MergeOrdered(primary: Glyph, secondary: Glyph, result: Glyph) returns (r: Glyph)
    requires Room(primary, secondary, result)
    ensures r == Combine(primary, secondary, result)
  {
    var content := JoinedContent(primary, secondary, result.content);
    var pos := primary.contentLen + |Sep| + secondary.contentLen;
    var id := Sha256Hash(content, pos);
    assert id == JoinedId(primary, secondary, result.content);
    r := Glyph(id, content, pos, primary.energy + secondary.energy,
               MergeSpec.Max(primary.activationCount, secondary.activationCount),
               MergeSpec.Max(primary.lastUpdateTime, secondary.lastUpdateTime),
               StrNCpy(result.parent1Id, primary.id, IdSize - 1), StrNCpy(result.parent2Id, secondary.id, IdSize - 1));
  }

  /** The glyph as the merge rule sees it: the id string and the live content. */
  function Core(g: Glyph): MergeSpec.Glyph<seq<bv8>, bv8>
    requires g.contentLen <= |g.content|
  {
    MergeSpec.Glyph(CStr(g.id), Live(g), g.energy, g.activationCount, g.lastUpdateTime)
  }

  /** The id sha256_hash writes reads back as the digest of the joined content. */
  lemma JoinedIdReads(p: Glyph, s: Glyph, buf: seq<bv8>)
    requires p.contentLen <= |p.content| && s.contentLen <= |s.content|
    requires p.contentLen + |Sep| + s.contentLen <= |buf|
    ensures CStr(JoinedId(p, s, buf)) == RefDigest(Live(p) + Sep + Live(s))
  {
    var joined := Live(p) + Sep + Live(s);
    JoinedLayout(p, s, buf);
    DigestHasNoNul(Hash(joined, Unsigned));
    CStrTerminated(RefDigest(joined), []);
    assert JoinedId(p, s, buf) == RefDigest(joined) + [0] + [];
  }

  /** Combine keeps the struct well formed. */
  lemma CombineValid(p: Glyph, s: Glyph, result: Glyph)
    requires Valid(p) && Valid(s) && Valid(result) && Fits(p, s)
    ensures Valid(Combine(p, s, result))
  {
  }

  /** Combine follows the merge rule's Combine. */
  lemma CombineRefines(p: Glyph, s: Glyph, result: Glyph)
    requires Valid(p) && Valid(s) && Valid(result) && Fits(p, s)
    ensures var m := Combine(p, s, result);
      MergeSpec.Combine(Core(p), Core(s), Sep, RefDigest) == MergeSpec.Merged(Core(m), CStr(m.parent1Id), CStr(m.parent2Id))
  {
    var m := Combine(p, s, result);
    var joined := MergeSpec.Joined(Core(p), Core(s), Sep);
    JoinedLayout(p, s, result.content);
    assert Live(m) == joined;
    JoinedIdReads(p, s, result.content);
    assert CStr(m.id) == RefDigest(joined);
    StrNCpyKeeps(result.parent1Id, p.id);
    StrNCpyKeeps(result.parent2Id, s.id);
  }

  /**
   * When the joined content fits, merge follows the merge rule, with the
   * digest of the content as id and the parents read back as strings, and
   * the result is a well-formed struct again.
   */
  lemma MergeRefines(g1: Glyph, g2: Glyph, result: Glyph)
    requires Valid(g1) && Valid(g2) && Valid(result) && Fits(g1, g2)
    ensures var m := MergeOf(g1, g2, result);
      Valid(m) &&
      MergeSpec.Merge(Core(g1), Core(g2), Sep, RefDigest) == MergeSpec.Merged(Core(m), CStr(m.parent1Id), CStr(m.parent2Id))
  {
    if g1.energy >= g2.energy {
      CombineValid(g1, g2, result);
      CombineRefines(g1, g2, result);
    } else {
      CombineValid(g2, g1, result);
      CombineRefines(g2, g1, result);
    }
  }
}
