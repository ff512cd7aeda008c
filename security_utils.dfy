/**
 * The interpreter's input checks: safe file names, glyph id syntax, the
 * in-place sanitising of text buffers, integer ranges, the string checks of
 * vault path validation, and the visited list used to detect inheritance
 * cycles.
 */
module SecurityUtils {
  import opened CString
  import opened CLib

  /** The longest glyph id validate_glyph_id accepts. */
  const MaxIdLen: nat := 64
  /** Capacity of the visited list (the interpreter's inheritance depth limit). */
  const MaxVisited: nat := 32
  /** PATH_MAX on FreeBSD: the size of the path buffers of validate_vault_path. */
  const PathMax: nat := 1024

  /** Whether no character of `s` is a control character. */
  function NoControls(s: string): (r: bool)
    ensures r <==> forall i :: 0 <= i < |s| ==> !IsCntrl(s[i])
    decreases |s|
  {
    |s| == 0 || (!IsCntrl(s[0]) && NoControls(s[1..]))
  }

  /**
   * is_safe_filename: a name that is non-empty, has no '/' or '\', does not
   * start with '.', and has no control character.
   */
  function IsSafeFilename(name: string): (r: bool)
    ensures r <==> |name| > 0 && '/' !in name && '\\' !in name && name[0] != '.' &&
                   forall i :: 0 <= i < |name| ==> !IsCntrl(name[i])
  {
    |name| > 0 && Find(name, '/') == |name| && Find(name, '\\') == |name| && name[0] != '.' && NoControls(name)
  }

  /** The characters a glyph id may use: letters, digits, '_' and '-'. */
  predicate IsIdChar(c: char) {
    IsAlnum(c) || c == '_' || c == '-'
  }

  function AllIdChars(s: string): (r: bool)
    ensures r <==> forall i :: 0 <= i < |s| ==> IsIdChar(s[i])
    decreases |s|
  {
    |s| == 0 || (IsIdChar(s[0]) && AllIdChars(s[1..]))
  }

  /** validate_glyph_id: 1 to 64 characters, each a letter, digit, '_' or '-'. */
  function ValidGlyphId(id: string): (r: bool)
    ensures r <==> 1 <= |id| <= MaxIdLen && forall i :: 0 <= i < |id| ==> IsIdChar(id[i])
  {
    |id| != 0 && |id| <= MaxIdLen && AllIdChars(id)
  }

  /** A valid glyph id is a safe file name: ids can name vault files directly. */
  lemma ValidIdIsSafe(id: string)
    requires ValidGlyphId(id)
    ensures IsSafeFilename(id)
  {
    assert IsIdChar(id[0]);
    forall i | 0 <= i < |id| ensures id[i] != '/' && id[i] != '\\' && !IsCntrl(id[i]) {
      assert IsIdChar(id[i]);
    }
  }

  /** validate_range_int: 0 when min <= value <= max, -1 otherwise. */
  function ValidateRangeInt(value: int, min: int, max: int): (r: int)
    ensures r == 0 || r == -1
    ensures r == 0 <==> min <= value <= max
  {
    if value < min || value > max then -1 else 0
  }

  // ---------------------------------------------------------------------
  // sanitize_string

  /** strnlen: the characters before the first NUL, but no more than `max`. */
  function StrNLen(s: string, max: nat): (n: nat)
    ensures n <= max && n <= |s|
    ensures forall i :: 0 <= i < n ==> s[i] != '\0'
    ensures n < max ==> n == |s| || s[n] == '\0'
  {
    var k := Find(s, '\0');
    if k < max then k else max
  }

  /** The replacement sanitize_string makes: a control character other than '\n' and '\t' becomes ' '. */
  function Clean(c: char): char {
    if IsCntrl(c) && c != '\n' && c != '\t' then ' ' else c
  }

  /**
   * The buffer after sanitize_string(s, max): the first strnlen characters
   * cleaned, and a NUL at max - 1 when no NUL came earlier.
   */
  function Sanitized(s: string, max: nat): (r: string)
    requires 1 <= max <= |s|
    ensures |r| == |s|
  {
    var n := StrNLen(s, max);
    var cleaned := seq(|s|, i requires 0 <= i < |s| => if i < n then Clean(s[i]) else s[i]);
    if n >= max then cleaned[max - 1 := '\0'] else cleaned
  }

  /**
   * What sanitize_string promises: no control character other than '\n' and
   * '\t' is left before the terminator, ordinary characters are untouched,
   * nothing past the string changes, and the result is NUL-terminated
   * within `max` characters. The source's second branch, which replaces a
   * NUL inside the string, never fires: no character before strnlen is NUL,
   * and cleaning never produces one.
   */
  lemma SanitizedSpec(s: string, max: nat)
    requires 1 <= max <= |s|
    ensures var r := Sanitized(s, max);
      var n := StrNLen(s, max);
      (forall i :: 0 <= i < n && i < max - 1 ==> r[i] == Clean(s[i]) && Clean(s[i]) != '\0') &&
      (forall i :: 0 <= i < n && i < max - 1 ==> !IsCntrl(r[i]) || r[i] == '\n' || r[i] == '\t') &&
      (forall i :: n <= i < |s| && i != max - 1 ==> r[i] == s[i]) &&
      '\0' in r[..max]
  {
    var r := Sanitized(s, max);
    var n := StrNLen(s, max);
    if n >= max {
      assert r[max - 1] == '\0';
    } else {
      assert s[n] == '\0' && r[n] == '\0';
    }
  }

  /** Sanitising twice is sanitising once. */
  lemma SanitizeIdempotent(s: string, max: nat)
    requires 1 <= max <= |s|
    ensures Sanitized(Sanitized(s, max), max) == Sanitized(s, max)
  {
    var r := Sanitized(s, max);
    var n := StrNLen(s, max);
    var n2 := StrNLen(r, max);
    if n >= max {
      assert r[max - 1] == '\0';
      assert forall i :: 0 <= i < max - 1 ==> r[i] != '\0';
      assert n2 == max - 1;
    } else {
      assert r[n] == '\0';
      assert forall i :: 0 <= i < n ==> r[i] != '\0';
      assert n2 == n;
    }
    assert forall i :: 0 <= i < n2 ==> Clean(r[i]) == r[i];
  }

  /** sanitize_string on a buffer of at least `max` characters; it always returns 0. */
  method SanitizeString(str: array<char>, max: nat) returns (rc: int)
    requires 1 <= max <= str.Length
    modifies str
    ensures str[..] == Sanitized(old(str[..]), max)
    ensures rc == 0
  {
    var n := StrNLen(str[..], max);
    ghost var s := str[..];
    var i := 0;
    while i < n
      invariant i <= n
      invariant forall k :: 0 <= k < str.Length ==> str[k] == if k < i then Clean(s[k]) else s[k]
    {
      if IsCntrl(str[i]) && str[i] != '\n' && str[i] != '\t' {
        str[i] := ' ';
      }
      i := i + 1;
    }
    if n >= max {
      str[max - 1] := '\0';
    }
    rc := 0;
  }

  // ---------------------------------------------------------------------
  // validate_vault_path

  /** strstr(s, "ab") != NULL for a two-character needle: `a` directly followed by `b` somewhere in `s`. */
  function HasPair(s: string, a: char, b: char): (r: bool)
    ensures r <==> exists i :: 0 <= i < |s| - 1 && s[i] == a && s[i + 1] == b
    decreases |s|
  {
    if |s| < 2 then false
    else if s[0] == a && s[1] == b then true
    else
      var r := HasPair(s[1..], a, b);
      assert r ==> exists i :: 0 <= i < |s| - 1 && s[i] == a && s[i + 1] == b by {
        if r {
          var i :| 0 <= i < |s| - 2 && s[1..][i] == a && s[1..][i + 1] == b;
          assert s[i + 1] == a && s[i + 2] == b;
        }
      }
      r
  }

  /** The first test of validate_vault_path: no "..", no leading '/', no "//". */
  predicate SafeVaultName(name: string) {
    !HasPair(name, '.', '.') && !(|name| > 0 && name[0] == '/') && !HasPair(name, '/', '/')
  }

  /** A glyph id that validate_glyph_id accepts passes the name test of validate_vault_path. */
  lemma ValidIdIsSafeVaultName(id: string)
    requires ValidGlyphId(id)
    ensures SafeVaultName(id)
  {
    assert IsIdChar(id[0]);
    forall i | 0 <= i < |id| - 1 ensures id[i] != '.' && id[i] != '/' {
      assert IsIdChar(id[i]);
    }
  }

  /** The final test: the resolved path is the vault itself or lies below it. */
  predicate InVault(path: string, vault: string) {
    |path| >= |vault| && path[..|vault|] == vault && (|path| == |vault| || path[|vault|] == '/')
  }

  /** The filesystem queries validate_vault_path makes: realpath, and access(F_OK). */
  datatype FileSystem = FileSystem(realpath: string -> Option<string>, isFile: string -> bool)

  /** The index of the last '/' in `s`, if any (strrchr). */
  function LastSlash(s: string): (r: Option<nat>)
    ensures r.Some? ==> r.value < |s| && s[r.value] == '/' && forall j :: r.value < j < |s| ==> s[j] != '/'
    ensures r.None? ==> '/' !in s
    decreases |s|
  {
    if |s| == 0 then None
    else if s[|s| - 1] == '/' then Some(|s| - 1)
    else LastSlash(s[..|s| - 1])
  }

  /**
   * validate_vault_path: the name test comes first; then the vault is
   * resolved, the joined path must fit PATH_MAX, its directory must resolve,
   * an existing file is resolved in full, and the result must lie in the
   * resolved vault. On success the path cut to `outSize` is returned.
   */
  function ValidateVaultPath(vault: string, name: string, outSize: nat, fs: FileSystem): (r: Option<string>)
    requires outSize >= 1
  {
    if !SafeVaultName(name) then None
    else match fs.realpath(vault)
      case None => None
      case Some(vr) =>
        var full := vr + "/" + name;
        if |full| >= PathMax then None
        else
          var dirOk := match LastSlash(full)
            case None => true
            case Some(k) => fs.realpath(full[..k]).Some?;
          if !dirOk then None
          else
            var resolved := if fs.isFile(full) then fs.realpath(full) else Some(full);
            match resolved
            case None => None
            case Some(fr) => if InVault(fr, vr) then Some(Truncate(fr, outSize)) else None
  }

  /** A name failing the first test is refused whatever the filesystem holds. */
  lemma NameRejectedFirst(vault: string, name: string, outSize: nat, fs: FileSystem)
    requires outSize >= 1 && !SafeVaultName(name)
    ensures ValidateVaultPath(vault, name, outSize, fs) == None
  {
  }

  /** An accepted path is (a prefix of) a path inside the resolved vault. */
  lemma AcceptedInVault(vault: string, name: string, outSize: nat, fs: FileSystem)
    requires outSize >= 1 && ValidateVaultPath(vault, name, outSize, fs).Some?
    ensures SafeVaultName(name) && fs.realpath(vault).Some?
    ensures exists fr :: InVault(fr, fs.realpath(vault).value) &&
                         ValidateVaultPath(vault, name, outSize, fs).value == Truncate(fr, outSize)
  {
  }

  /**
   * A safe name for a file that does not exist yet, in a resolvable vault
   * and directory, is accepted as the vault joined with the name.
   */
  lemma NewFileAccepted(vault: string, name: string, outSize: nat, fs: FileSystem)
    requires outSize > PathMax && SafeVaultName(name)
    requires fs.realpath(vault).Some? && |fs.realpath(vault).value| + 1 + |name| < PathMax
    requires var full := fs.realpath(vault).value + "/" + name;
      !fs.isFile(full) && fs.realpath(full[..LastSlash(full).value]).Some?
    ensures ValidateVaultPath(vault, name, outSize, fs) == Some(fs.realpath(vault).value + "/" + name)
  {
    var vr := fs.realpath(vault).value;
    var full := vr + "/" + name;
    assert full[|vr|] == '/';
    assert full[..|vr|] == vr;
  }

  // ---------------------------------------------------------------------
  // Inheritance cycle detection

  /** Whether `id` is among `ids`, scanning from the front as inheritance_context_is_visited does. */
  function Seen(ids: seq<string>, id: string): (r: bool)
    ensures r <==> id in ids
    decreases |ids|
  {
    |ids| > 0 && (ids[0] == id || Seen(ids[1..], id))
  }

  /** The visited list of an inheritance walk. */
  class InheritanceContext {
    var visited: seq<string>

    /** At most 32 ids, none recorded twice. */
    ghost predicate Valid()
      reads this
    {
      |visited| <= MaxVisited && forall i, j :: 0 <= i < j < |visited| ==> visited[i] != visited[j]
    }

    /** inheritance_context_init: an empty list. */
    constructor ()
      ensures Valid() && visited == []
    {
      visited := [];
    }

    /** inheritance_context_is_visited: 1 iff some recorded id equals `id`. */
    function IsVisited(id: string): (r: bool)
      reads this
      ensures r <==> exists i :: 0 <= i < |visited| && visited[i] == id
    {
      Seen(visited, id)
    }

    /**
     * inheritance_context_visit: -1 for an id already recorded (a cycle) or
     * when 32 are recorded; otherwise the id is appended and 0 returned.
     */
    method Visit(id: string) returns (rc: int)
      requires Valid()
      modifies this
      ensures Valid()
      ensures rc == 0 <==> !old(IsVisited(id)) && |old(visited)| < MaxVisited
      ensures rc == 0 || rc == -1
      ensures visited == if rc == 0 then old(visited) + [id] else old(visited)
      ensures rc == 0 ==> IsVisited(id)
    {
      if IsVisited(id) {
        return -1;
      }
      if |visited| >= MaxVisited {
        return -1;
      }
      visited := visited + [id];
      assert visited[|visited| - 1] == id;
      rc := 0;
    }
  }
}
