/**
 * Character classes of the C locale and the C string helpers the
 * glyph-definition parsers rely on: truncating copies into fixed buffers,
 * first-occurrence search, strtok-style tokenising and whitespace trimming.
 * A C string is modelled by its contents (the characters before its NUL).
 */
module CString {
  import opened CLib

  /** isspace in the C locale: ' ' and the controls \t \n \v \f \r (codes 9..13). */
  predicate IsSpace(c: char) {
    c == ' ' || 9 <= c as int <= 13
  }

  /** The narrower set the fuzz targets trim: ' ', '\t', '\n' and '\r'. */
  predicate IsFuzzSpace(c: char) {
    c == ' ' || c == '\t' || c == '\n' || c == '\r'
  }

  /** iscntrl in the C locale: codes 0..31 and 127. */
  predicate IsCntrl(c: char) {
    c as int < 32 || c as int == 127
  }

  predicate IsDigit(c: char) {
    '0' <= c <= '9'
  }

  predicate IsAlpha(c: char) {
    'A' <= c <= 'Z' || 'a' <= c <= 'z'
  }

  predicate IsAlnum(c: char) {
    IsAlpha(c) || IsDigit(c)
  }

  /**
   * What a buffer of `size` bytes holds after strncpy(buf, s, size - 1) into a
   * zeroed buffer: at most size - 1 characters, always NUL-terminated.
   */
  function Truncate(s: string, size: nat): (r: string)
    requires size >= 1
    ensures |r| <= size - 1 && r <= s
    ensures |s| < size ==> r == s
    ensures |s| >= size ==> |r| == size - 1
  {
    if |s| < size then s else s[..size - 1]
  }

  /** strchr: the index of the first `c` in `s`, or |s| when there is none. */
  function Find(s: string, c: char): (i: nat)
    ensures i <= |s|
    ensures i < |s| ==> s[i] == c
    ensures forall j :: 0 <= j < i ==> s[j] != c
    ensures i == |s| <==> c !in s
  {
    if |s| == 0 then 0
    else if s[0] == c then 0
    else 1 + Find(s[1..], c)
  }

  /**
   * The tokens strtok(s, [d]) hands out one by one: maximal runs of
   * characters other than `d`; runs of delimiters produce no empty token.
   */
  function Tokens(s: string, d: char): (ts: seq<string>)
    decreases |s|
  {
    if |s| == 0 then []
    else if s[0] == d then Tokens(s[1..], d)
    else
      var i := Find(s, d);
      [s[..i]] + (if i < |s| then Tokens(s[i + 1..], d) else [])
  }

  lemma {:induction false} TokensShape(s: string, d: char)
    ensures forall t :: t in Tokens(s, d) ==> |t| > 0 && d !in t
    decreases |s|
  {
    if |s| == 0 {
    } else if s[0] == d {
      TokensShape(s[1..], d);
    } else {
      var i := Find(s, d);
      if i < |s| {
        TokensShape(s[i + 1..], d);
      }
    }
  }

  /**
   * The loop the parsers run over strtok tokens: convert each token, keep
   * the ones that convert, and stop once `room` values are held.
   */
  function KeepFirst<T>(ts: seq<string>, conv: string -> Option<T>, room: nat): (r: seq<T>)
    ensures |r| <= room
    decreases |ts|
  {
    if |ts| == 0 || room == 0 then []
    else
      match conv(ts[0])
      case Some(x) => [x] + KeepFirst(ts[1..], conv, room - 1)
      case None => KeepFirst(ts[1..], conv, room)
  }

  /** Every token that converts, with no cap. */
  function KeepAll<T>(ts: seq<string>, conv: string -> Option<T>): seq<T>
    decreases |ts|
  {
    if |ts| == 0 then []
    else (match conv(ts[0]) case Some(x) => [x] case None => []) + KeepAll(ts[1..], conv)
  }

  function Min(a: nat, b: nat): nat { if a < b then a else b }

  /** The capped loop keeps exactly the first `room` convertible tokens, in order. */
  lemma {:induction false} KeepFirstIsPrefix<T>(ts: seq<string>, conv: string -> Option<T>, room: nat)
    ensures KeepFirst(ts, conv, room) == KeepAll(ts, conv)[..Min(room, |KeepAll(ts, conv)|)]
    decreases |ts|
  {
    if |ts| == 0 || room == 0 {
    } else {
      KeepFirstIsPrefix(ts[1..], conv, if conv(ts[0]).Some? then room - 1 else room);
    }
  }

  /**
   * The capped loop keeps at most `room` values; they are a prefix of all
   * convertible tokens, all of them when there are no more than `room`, and
   * each is the conversion of one of the tokens.
   */
  lemma KeepFirstSpec<T>(ts: seq<string>, conv: string -> Option<T>, room: nat)
    ensures |KeepFirst(ts, conv, room)| <= room
    ensures KeepFirst(ts, conv, room) <= KeepAll(ts, conv)
    ensures |KeepAll(ts, conv)| <= room ==> KeepFirst(ts, conv, room) == KeepAll(ts, conv)
    ensures forall x :: x in KeepFirst(ts, conv, room) ==> exists t :: t in ts && conv(t) == Some(x)
  {
    KeepFirstIsPrefix(ts, conv, room);
    KeepAllFrom(ts, conv);
    assert forall x :: x in KeepFirst(ts, conv, room) ==> x in KeepAll(ts, conv);
  }

  /** One turn of the capped loop. */
  lemma KeepFirstStep<T>(ts: seq<string>, conv: string -> Option<T>, room: nat, i: nat)
    requires i < |ts| && room > 0
    ensures KeepFirst(ts[i..], conv, room) ==
      (match conv(ts[i]) case Some(x) => [x] + KeepFirst(ts[i + 1..], conv, room - 1)
                         case None => KeepFirst(ts[i + 1..], conv, room))
  {
    assert ts[i..][1..] == ts[i + 1..];
  }

  /** A property every conversion result has holds of every kept value. */
  lemma {:induction false} KeepFirstKeeps<T>(ts: seq<string>, conv: string -> Option<T>, room: nat, p: T -> bool)
    requires forall t, x :: conv(t) == Some(x) ==> p(x)
    ensures forall x :: x in KeepFirst(ts, conv, room) ==> p(x)
    decreases |ts|
  {
    if |ts| > 0 && room > 0 {
      match conv(ts[0]) {
        case Some(y) =>
          KeepFirstKeeps(ts[1..], conv, room - 1, p);
          assert KeepFirst(ts, conv, room) == [y] + KeepFirst(ts[1..], conv, room - 1);
        case None =>
          KeepFirstKeeps(ts[1..], conv, room, p);
      }
    }
  }

  /**
   * The strtok loop the parsers share: convert each token in turn, store the
   * ones that convert, and stop once `room` values are stored.
   */
  method KeepTokens<T>(ts: seq<string>, conv: string -> Option<T>, room: nat) returns (kept: seq<T>)
    ensures kept == KeepFirst(ts, conv, room)
  {
    kept := [];
    var i := 0;
    while i < |ts| && |kept| < room
      invariant i <= |ts| && |kept| <= room
      invariant kept + KeepFirst(ts[i..], conv, room - |kept|) == KeepFirst(ts, conv, room)
    {
      assert ts[i..][1..] == ts[i + 1..];
      match conv(ts[i]) {
        case Some(x) => kept := kept + [x];
        case None =>
      }
      i := i + 1;
    }
  }

  /** Every kept value is the conversion of some token. */
  lemma {:induction false} KeepAllFrom<T>(ts: seq<string>, conv: string -> Option<T>)
    ensures forall x :: x in KeepAll(ts, conv) ==> exists t :: t in ts && conv(t) == Some(x)
    decreases |ts|
  {
    if |ts| > 0 {
      KeepAllFrom(ts[1..], conv);
      assert forall t :: t in ts[1..] ==> t in ts;
    }
  }

  /** Removing leading characters for which `ws` holds. */
  function TrimLeft(s: string, ws: char -> bool): string
    decreases |s|
  {
    if |s| > 0 && ws(s[0]) then TrimLeft(s[1..], ws) else s
  }

  /** Removing trailing characters for which `ws` holds. */
  function TrimRight(s: string, ws: char -> bool): string
    decreases |s|
  {
    if |s| > 0 && ws(s[|s| - 1]) then TrimRight(s[..|s| - 1], ws) else s
  }

  /** The text trim_whitespace leaves behind. */
  function Trim(s: string, ws: char -> bool): string {
    TrimRight(TrimLeft(s, ws), ws)
  }

  /**
   * trim_whitespace: advance past leading whitespace; if anything is left,
   * walk an end pointer back over trailing whitespace. The NUL the source
   * writes after the last kept character is the upper bound `hi`.
   */
  method TrimBounds(s: string, ws: char -> bool) returns (lo: nat, hi: nat)
    ensures lo <= hi <= |s|
    ensures s[lo..hi] == Trim(s, ws)
    ensures forall i :: 0 <= i < lo ==> ws(s[i])
    ensures forall i :: hi <= i < |s| ==> ws(s[i])
  {
    lo := SkipLeading(s, ws);
    if lo == |s| {
      hi := lo;
      return;
    }
    hi := SkipTrailing(s, ws, lo);
  }

  /** The first loop of trim_whitespace: the start pointer passes leading whitespace. */
  method SkipLeading(s: string, ws: char -> bool) returns (lo: nat)
    ensures lo <= |s| && TrimLeft(s, ws) == s[lo..]
    ensures forall i :: 0 <= i < lo ==> ws(s[i])
    ensures lo < |s| ==> !ws(s[lo])
  {
    lo := 0;
    while lo < |s| && ws(s[lo])
      invariant lo <= |s|
      invariant TrimLeft(s[lo..], ws) == TrimLeft(s, ws)
      invariant forall i :: 0 <= i < lo ==> ws(s[i])
    {
      assert s[lo..][1..] == s[lo + 1..];
      lo := lo + 1;
    }
  }

  /**
   * The second loop of trim_whitespace: an end pointer walks back from the
   * last character over trailing whitespace, never past the first kept one.
   */
  method SkipTrailing(s: string, ws: char -> bool, lo: nat) returns (hi: nat)
    requires lo < |s| && !ws(s[lo])
    ensures lo < hi <= |s| && TrimRight(s[lo..], ws) == s[lo..hi]
    ensures forall i :: hi <= i < |s| ==> ws(s[i])
  {
    var end := |s| - 1;
    assert s[lo..end + 1] == s[lo..];
    while end > lo && ws(s[end])
      invariant lo <= end < |s|
      invariant TrimRight(s[lo..end + 1], ws) == TrimRight(s[lo..], ws)
      invariant forall i :: end < i < |s| ==> ws(s[i])
    {
      assert s[lo..end + 1][..end - lo] == s[lo..end];
      end := end - 1;
    }
    hi := end + 1;
    assert s[lo..hi][hi - lo - 1] == s[end];
  }

  /** The number of leading characters for which `ws` holds. */
  function LeadingCount(s: string, ws: char -> bool): (k: nat)
    ensures k <= |s|
    ensures forall i :: 0 <= i < k ==> ws(s[i])
    ensures k < |s| ==> !ws(s[k])
    decreases |s|
  {
    if |s| > 0 && ws(s[0]) then 1 + LeadingCount(s[1..], ws) else 0
  }

  /** The index where the run of trailing characters satisfying `ws` starts. */
  function TrailingStart(s: string, ws: char -> bool): (k: nat)
    ensures k <= |s|
    ensures forall i :: k <= i < |s| ==> ws(s[i])
    ensures k > 0 ==> !ws(s[k - 1])
    decreases |s|
  {
    if |s| > 0 && ws(s[|s| - 1]) then TrailingStart(s[..|s| - 1], ws) else |s|
  }

  lemma {:induction false} TrimLeftIsSuffix(s: string, ws: char -> bool)
    ensures TrimLeft(s, ws) == s[LeadingCount(s, ws)..]
    decreases |s|
  {
    if |s| > 0 && ws(s[0]) {
      TrimLeftIsSuffix(s[1..], ws);
      assert s[1..][LeadingCount(s[1..], ws)..] == s[LeadingCount(s, ws)..];
    }
  }

  lemma {:induction false} TrimRightIsPrefix(s: string, ws: char -> bool)
    ensures TrimRight(s, ws) == s[..TrailingStart(s, ws)]
    decreases |s|
  {
    if |s| > 0 && ws(s[|s| - 1]) {
      var t := s[..|s| - 1];
      TrimRightIsPrefix(t, ws);
      assert t[..TrailingStart(t, ws)] == s[..TrailingStart(s, ws)];
    }
  }

  /** Where the text kept by trimming ends. */
  function TrimEnd(s: string, ws: char -> bool): (hi: nat)
    ensures LeadingCount(s, ws) <= hi <= |s|
    ensures forall i :: hi <= i < |s| ==> ws(s[i])
    ensures hi > LeadingCount(s, ws) ==> !ws(s[hi - 1])
  {
    var lo := LeadingCount(s, ws);
    var k := TrailingStart(s[lo..], ws);
    assert forall i :: lo + k <= i < |s| ==> s[i] == s[lo..][i - lo];
    lo + k
  }

  /**
   * What trimming promises: the result is the input minus a whitespace prefix
   * and a whitespace suffix, and it neither starts nor ends with whitespace.
   */
  lemma TrimSpec(s: string, ws: char -> bool)
    ensures Trim(s, ws) == s[LeadingCount(s, ws)..TrimEnd(s, ws)]
    ensures |Trim(s, ws)| > 0 ==> !ws(Trim(s, ws)[0]) && !ws(Trim(s, ws)[|Trim(s, ws)| - 1])
  {
    var lo := LeadingCount(s, ws);
    TrimLeftIsSuffix(s, ws);
    var t := s[lo..];
    var k := TrailingStart(t, ws);
    TrimRightIsPrefix(t, ws);
    assert t[..k] == s[lo..lo + k];
  }

  /** An input made only of whitespace trims to "", and only such an input does. */
  lemma TrimEmptyIff(s: string, ws: char -> bool)
    ensures Trim(s, ws) == [] <==> forall i :: 0 <= i < |s| ==> ws(s[i])
  {
    TrimSpec(s, ws);
    var lo := LeadingCount(s, ws);
    assert |Trim(s, ws)| > 0 ==> Trim(s, ws)[0] == s[lo];
  }

  lemma {:induction false} TrimLeftIdle(s: string, ws: char -> bool)
    requires |s| == 0 || !ws(s[0])
    ensures TrimLeft(s, ws) == s
  {
  }

  lemma {:induction false} TrimRightIdle(s: string, ws: char -> bool)
    requires |s| == 0 || !ws(s[|s| - 1])
    ensures TrimRight(s, ws) == s
  {
  }

  /** Trimming twice is trimming once. */
  lemma TrimIdempotent(s: string, ws: char -> bool)
    ensures Trim(Trim(s, ws), ws) == Trim(s, ws)
  {
    TrimSpec(s, ws);
    var t := Trim(s, ws);
    TrimLeftIdle(t, ws);
    TrimRightIdle(t, ws);
  }
}
