/**
 * The stand-in content hashes of the merge implementations. None of them is
 * SHA-256: each folds the bytes into one 32-bit word with h := h * 33 ^ byte
 * from the SHA-256 initial value, then spreads that word over the output by
 * exclusive-or with fixed masks.
 */
module SpuHash {

  /** The first word of SHA-256's initial hash value, used as the seed. */
  const Seed: bv32 := 0x6a09e667

  /** One step of the fold: (h << 5) + h, exclusive-or the widened byte. */
  function Mix(h: bv32, x: bv32): bv32 {
    ((h << 5) + h) ^ x
  }

  /** The byte as an unsigned value: static_cast<uint8_t> in merge_ref.cpp, ap_uint<8> in the HLS core. */
  function Unsigned(b: bv8): bv32 {
    b as bv32
  }

  /**
   * The byte as a plain `char` converted to uint32_t where char is signed
   * (x86-64): bytes from 0x80 up are sign-extended.
   */
  function SignExtended(b: bv8): bv32 {
    if b < 0x80 then b as bv32 else (b as bv32) | 0xFFFF_FF00
  }

  /** The fold over the bytes in order, each widened by `widen`. */
  function Hash(data: seq<bv8>, widen: bv8 -> bv32): bv32
    decreases |data|
  {
    if |data| == 0 then Seed else Mix(Hash(data[..|data| - 1], widen), widen(data[|data| - 1]))
  }

  /** The hashing loop of sha256_hash and hash_content, over the first `len` bytes. */
  method HashLoop(data: seq<bv8>, len: nat, widen: bv8 -> bv32) returns (h: bv32)
    requires len <= |data|
    ensures h == Hash(data[..len], widen)
  {
    h := Seed;
    var i := 0;
    while i < len
      invariant i <= len
      invariant h == Hash(data[..i], widen)
    {
      assert data[..i + 1][..i] == data[..i];
      h := Mix(h, widen(data[i]));
      i := i + 1;
    }
  }

  /** Mixing a word in is undone by mixing it in again, so different bytes give different states. */
  lemma MixInjective(h: bv32, x: bv32, y: bv32)
    requires x != y
    ensures Mix(h, x) != Mix(h, y)
  {
  }

  /** The two widenings agree below 0x80, so the sha256.h and merge_ref.cpp folds agree on ASCII text. */
  lemma {:induction false} AsciiAgree(data: seq<bv8>)
    requires forall i :: 0 <= i < |data| ==> data[i] < 0x80
    ensures Hash(data, SignExtended) == Hash(data, Unsigned)
  {
    if |data| > 0 {
      AsciiAgree(data[..|data| - 1]);
    }
  }

  /** A byte from 0x80 up separates them: the one-byte text [0x80] hashes differently. */
  lemma HighByteDisagrees()
    ensures Hash([0x80], SignExtended) != Hash([0x80], Unsigned)
  {
    assert [0x80 as bv8][..0] == [];
    MixInjective(Seed, 0xFFFF_FF80, 0x80);
  }

  // ---------------------------------------------------------------------
  // Hexadecimal output

  /** The ASCII code of a lower-case hexadecimal digit. */
  function HexDigit(d: bv32): (c: bv8)
    requires d < 16
    ensures ('0' as bv8 <= c <= '9' as bv8) || ('a' as bv8 <= c <= 'f' as bv8)
  {
    if d < 10 then 0x30 + d as bv8 else 0x57 + d as bv8
  }

  /** The value of a lower-case hexadecimal digit. */
  function DigitValue(c: bv8): bv32 {
    if c <= 0x39 then (c - 0x30) as bv32 else (c - 0x57) as bv32
  }

  /** The last n hexadecimal digits of w, most significant first. */
  function HexDigits(w: bv32, n: nat): (s: seq<bv8>)
    ensures |s| == n && 0 !in s
  {
    if n == 0 then [] else HexDigits(w >> 4, n - 1) + [HexDigit(w & 0xF)]
  }

  /** printf's "%08x": eight lower-case digits, most significant first. */
  function Hex8(w: bv32): (s: seq<bv8>)
    ensures |s| == 8 && 0 !in s
  {
    HexDigits(w, 8)
  }

  /** Reads eight hexadecimal digits back into a word. */
  function Unhex8(s: seq<bv8>): bv32
    requires |s| == 8
  {
    (DigitValue(s[0]) << 28) | (DigitValue(s[1]) << 24) | (DigitValue(s[2]) << 20) | (DigitValue(s[3]) << 16) |
    (DigitValue(s[4]) << 12) | (DigitValue(s[5]) << 8) | (DigitValue(s[6]) << 4) | DigitValue(s[7])
  }

  lemma DigitRoundTrip(d: bv32)
    requires d < 16
    ensures DigitValue(HexDigit(d)) == d
  {
  }

  /** The eight digits of "%08x", written out. */
  lemma Hex8Digits(w: bv32)
    ensures Hex8(w) == [HexDigit((w >> 28) & 0xF), HexDigit((w >> 24) & 0xF), HexDigit((w >> 20) & 0xF),
                        HexDigit((w >> 16) & 0xF), HexDigit((w >> 12) & 0xF), HexDigit((w >> 8) & 0xF),
                        HexDigit((w >> 4) & 0xF), HexDigit(w & 0xF)]
  {
    assert HexDigits(w >> 28, 1) == [HexDigit((w >> 28) & 0xF)];
    assert HexDigits(w >> 24, 2) == HexDigits(w >> 28, 1) + [HexDigit((w >> 24) & 0xF)];
    assert HexDigits(w >> 20, 3) == HexDigits(w >> 24, 2) + [HexDigit((w >> 20) & 0xF)];
    assert HexDigits(w >> 16, 4) == HexDigits(w >> 20, 3) + [HexDigit((w >> 16) & 0xF)];
    assert HexDigits(w >> 12, 5) == HexDigits(w >> 16, 4) + [HexDigit((w >> 12) & 0xF)];
    assert HexDigits(w >> 8, 6) == HexDigits(w >> 12, 5) + [HexDigit((w >> 8) & 0xF)];
    assert HexDigits(w >> 4, 7) == HexDigits(w >> 8, 6) + [HexDigit((w >> 4) & 0xF)];
  }

  /** "%08x" loses nothing: the eight digits give the word back. */
  lemma Hex8RoundTrip(w: bv32)
    ensures Unhex8(Hex8(w)) == w
  {
    Hex8Digits(w);
    DigitRoundTrip((w >> 28) & 0xF);
    DigitRoundTrip((w >> 24) & 0xF);
    DigitRoundTrip((w >> 20) & 0xF);
    DigitRoundTrip((w >> 16) & 0xF);
    DigitRoundTrip((w >> 12) & 0xF);
    DigitRoundTrip((w >> 8) & 0xF);
    DigitRoundTrip((w >> 4) & 0xF);
    DigitRoundTrip(w & 0xF);
  }

  /** The masks of the eight words the C++ hashes print. */
  const Masks: seq<bv32> := [0, 0x12345678, 0x9abcdef0, 0xfedcba98, 0x13579bdf, 0x2468ace0, 0x87654321, 0xabcdef01]

  /** The 64 hexadecimal digits the C++ hashes print for the fold value `h`. */
  function Digest(h: bv32): (s: seq<bv8>)
    ensures |s| == 64
  {
    Hex8(h ^ Masks[0]) + Hex8(h ^ Masks[1]) + Hex8(h ^ Masks[2]) + Hex8(h ^ Masks[3]) +
    Hex8(h ^ Masks[4]) + Hex8(h ^ Masks[5]) + Hex8(h ^ Masks[6]) + Hex8(h ^ Masks[7])
  }

  /** The first eight digits of a digest are the fold value, so different fold values give different ids. */
  lemma DigestDecodes(h: bv32)
    ensures Unhex8(Digest(h)[..8]) == h
  {
    assert Digest(h)[..8] == Hex8(h ^ 0);
    Hex8RoundTrip(h);
  }

  /** The sixteen 32-bit words of the HLS core's 512-bit id: h ^ (0x12345678 + i). */
  function HlsWords(h: bv32): (ws: seq<bv32>)
    ensures |ws| == 16
  {
    seq(16, i requires 0 <= i < 16 => h ^ (0x12345678 + i as bv32))
  }

  /** The HLS id's first word is the second word the C++ digest prints; the C++ first word is the bare fold value. */
  lemma HlsFirstWord(h: bv32)
    ensures HlsWords(h)[0] == h ^ Masks[1]
    ensures Unhex8(Digest(h)[8..16]) == HlsWords(h)[0]
  {
    assert Digest(h)[8..16] == Hex8(h ^ Masks[1]);
    Hex8RoundTrip(h ^ Masks[1]);
  }

  /** A digest holds only digit characters, so never a NUL. */
  lemma DigestHasNoNul(h: bv32)
    ensures 0 !in Digest(h)
  {
    var parts := [Hex8(h ^ Masks[0]), Hex8(h ^ Masks[1]), Hex8(h ^ Masks[2]), Hex8(h ^ Masks[3]),
                  Hex8(h ^ Masks[4]), Hex8(h ^ Masks[5]), Hex8(h ^ Masks[6]), Hex8(h ^ Masks[7])];
    assert Digest(h) == parts[0] + parts[1] + parts[2] + parts[3] + parts[4] + parts[5] + parts[6] + parts[7];
  }

  /** sha256_hash of merge_ref.cpp: the unsigned fold, printed as 64 digits. */
  function RefDigest(data: seq<bv8>): (s: seq<bv8>)
    ensures |s| == 64
  {
    Digest(Hash(data, Unsigned))
  }

  /** sha256_string of sha256.h: the sign-extending fold, printed as 64 digits. */
  function HeaderDigest(data: seq<bv8>): (s: seq<bv8>)
    ensures |s| == 64
  {
    Digest(Hash(data, SignExtended))
  }

  /** The two C++ ids agree on ASCII content and differ on the byte 0x80. */
  lemma DigestsAgreeOnAscii(data: seq<bv8>)
    ensures (forall i :: 0 <= i < |data| ==> data[i] < 0x80) ==> RefDigest(data) == HeaderDigest(data)
    ensures RefDigest([0x80]) != HeaderDigest([0x80])
  {
    if forall i :: 0 <= i < |data| ==> data[i] < 0x80 {
      AsciiAgree(data);
    }
    HighByteDisagrees();
    DigestDecodes(Hash([0x80], Unsigned));
    DigestDecodes(Hash([0x80], SignExtended));
  }
}
