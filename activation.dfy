/**
 * Activation scripts: a command is `name` or `name(arg)`, where a numeric
 * argument becomes a parameter and any other argument names a target glyph;
 * a script is a '|'-separated sequence of commands.
 */
module Activation {
  import opened CString
  import opened CLib

  /** Sizes of the fixed buffers involved. */
  const CommandBufferLen: nat := 1024
  const CommandNameLen: nat := 64
  const TargetLen: nat := 64

  datatype Command = Command(name: string, param: real, target: string, hasParam: bool, hasTarget: bool)

  /** The zeroed command record parse_activation_command starts from, with its name set. */
  function Bare(name: string): Command {
    Command(name, 0.0, "", false, false)
  }

  /** An argument is numeric when it starts with a digit, '-' or '.'. */
  predicate NumericStart(a: string) {
    |a| > 0 && (IsDigit(a[0]) || a[0] == '-' || a[0] == '.')
  }

  /** The result of parse_activation_command: whether the name is non-empty, and the record. */
  datatype Parsed = Parsed(ok: bool, cmd: Command)

  /**
   * parse_activation_command: copy into a 1024-byte buffer and trim; without
   * '(' the whole text is the name; otherwise the name is the trimmed text
   * before '(' and, when a ')' follows, the trimmed text between them is the
   * argument. The call succeeds iff the name is non-empty.
   */
  function ParseCommand(s: string, libc: Libc): (r: Parsed)
    ensures r.ok <==> |r.cmd.name| > 0
    ensures |r.cmd.name| < CommandNameLen && |r.cmd.target| < TargetLen
    ensures !(r.cmd.hasParam && r.cmd.hasTarget)
    ensures r.cmd.hasParam || r.cmd.hasTarget ==> '(' in Trim(Truncate(s, CommandBufferLen), IsSpace)
  {
    var t := Trim(Truncate(s, CommandBufferLen), IsSpace);
    var p := Find(t, '(');
    var cmd :=
      if p == |t| then Bare(Truncate(t, CommandNameLen))
      else
        var name := Truncate(Trim(t[..p], IsSpace), CommandNameLen);
        var rest := t[p + 1..];
        var c := Find(rest, ')');
        if c == |rest| then Bare(name)
        else
          var a := Trim(rest[..c], IsSpace);
          if NumericStart(a) then Command(name, libc.atof(a), "", true, false)
          else Command(name, 0.0, Truncate(a, TargetLen), false, true);
    Parsed(|cmd.name| > 0, cmd)
  }

  /** A name or argument as written in a script: no outer whitespace and none of the given brackets. */
  predicate Plain(s: string, bound: nat) {
    0 < |s| < bound && !IsSpace(s[0]) && !IsSpace(s[|s| - 1]) && '(' !in s && ')' !in s && '|' !in s
  }

  /** The text `name(arg)`. */
  function Call(name: string, arg: string): string {
    name + "(" + arg + ")"
  }

  lemma FindAt(s: string, c: char, i: nat)
    requires i < |s| && s[i] == c && c !in s[..i]
    ensures Find(s, c) == i
  {
    var k := Find(s, c);
  }

  lemma TrimPlain(s: string)
    requires |s| > 0 && !IsSpace(s[0]) && !IsSpace(s[|s| - 1])
    ensures Trim(s, IsSpace) == s
  {
    TrimLeftIdle(s, IsSpace);
    TrimRightIdle(s, IsSpace);
  }

  /** Splitting `name(arg)` at its brackets gives back the name and the argument. */
  lemma SplitCall(name: string, arg: string)
    requires Plain(name, CommandNameLen) && Plain(arg, TargetLen)
    ensures var s := Call(name, arg);
      Truncate(s, CommandBufferLen) == s && Trim(s, IsSpace) == s &&
      Find(s, '(') == |name| && s[..|name|] == name &&
      Find(s[|name| + 1..], ')') == |arg| && s[|name| + 1..][..|arg|] == arg
  {
    var s := Call(name, arg);
    TrimPlain(s);
    assert s[..|name|] == name;
    FindAt(s, '(', |name|);
    var rest := s[|name| + 1..];
    assert rest == arg + ")";
    assert rest[..|arg|] == arg;
    FindAt(rest, ')', |arg|);
  }

  /** Parsing `name(target)` with a non-numeric target gives back the name and the target. */
  lemma ParseTargetCall(name: string, target: string, libc: Libc)
    requires Plain(name, CommandNameLen) && Plain(target, TargetLen) && !NumericStart(target)
    ensures ParseCommand(Call(name, target), libc) == Parsed(true, Command(name, 0.0, target, false, true))
  {
    SplitCall(name, target);
    TrimPlain(name);
    TrimPlain(target);
  }

  /** Parsing `name(number)` gives back the name and atof of the number. */
  lemma ParseParamCall(name: string, number: string, libc: Libc)
    requires Plain(name, CommandNameLen) && Plain(number, TargetLen) && NumericStart(number)
    ensures ParseCommand(Call(name, number), libc) == Parsed(true, Command(name, libc.atof(number), "", true, false))
  {
    SplitCall(name, number);
    TrimPlain(name);
    TrimPlain(number);
  }

  /** Parsing a bare name gives back the name with no parameter and no target. */
  lemma ParseBareName(name: string, libc: Libc)
    requires Plain(name, CommandNameLen)
    ensures ParseCommand(name, libc) == Parsed(true, Bare(name))
  {
    TrimPlain(name);
    assert Find(name, '(') == |name|;
  }

  /** The interpreter's self-test: `resonate(2.5)` is the command "resonate" with parameter 2.5. */
  lemma ResonateExample(libc: Libc)
    requires libc.atof("2.5") == 2.5
    ensures ParseCommand("resonate(2.5)", libc) == Parsed(true, Command("resonate", 2.5, "", true, false))
  {
    assert "resonate(2.5)" == Call("resonate", "2.5");
    ParseParamCall("resonate", "2.5", libc);
  }

  /** One token of a script: the parsed command when its name is non-empty. */
  function Named(r: Parsed): Option<Command> {
    if r.ok then Some(r.cmd) else None
  }

  function ScriptToken(libc: Libc): string -> Option<Command> {
    t => Named(ParseCommand(t, libc))
  }

  /** The '|'-separated tokens of a script, after the 1023-character copy. */
  function ScriptTokens(s: string): seq<string> {
    Tokens(Truncate(s, CommandBufferLen), '|')
  }

  lemma ScriptTokenApply(libc: Libc, t: string)
    ensures ScriptToken(libc)(t) == Named(ParseCommand(t, libc))
  {
  }

  /** parse_activation_sequence on the tokens of a script: the first `max` that parse to a named command, in order. */
  function Script(ts: seq<string>, max: nat, libc: Libc): seq<Command> {
    KeepFirst(ts, ScriptToken(libc), max)
  }

  /**
   * parse_activation_sequence keeps at most `max` commands: the first `max`
   * named commands of the script in order, and all of them when there are no more.
   */
  lemma ScriptSpec(ts: seq<string>, max: nat, libc: Libc)
    ensures |Script(ts, max, libc)| <= max
    ensures Script(ts, max, libc) <= KeepAll(ts, ScriptToken(libc))
    ensures |KeepAll(ts, ScriptToken(libc))| <= max ==> Script(ts, max, libc) == KeepAll(ts, ScriptToken(libc))
  {
    KeepFirstSpec(ts, ScriptToken(libc), max);
  }

  predicate HasName(c: Command) {
    0 < |c.name| < CommandNameLen
  }

  lemma NamedHasName(libc: Libc, t: string, c: Command)
    requires Named(ParseCommand(t, libc)) == Some(c)
    ensures HasName(c)
  {
  }

  /** Every command kept from a script has a non-empty name that fits its buffer. */
  lemma ScriptNames(ts: seq<string>, max: nat, libc: Libc)
    ensures forall c :: c in Script(ts, max, libc) ==> HasName(c)
  {
    forall t, c | ScriptToken(libc)(t) == Some(c) ensures HasName(c) {
      ScriptTokenApply(libc, t);
      NamedHasName(libc, t, c);
    }
    KeepFirstKeeps(ts, ScriptToken(libc), max, HasName);
  }

  /**
   * The loop of parse_activation_sequence over the strtok tokens: a token
   * whose command has a name takes the next slot; the loop stops when `max`
   * slots are filled.
   */
  method ParseSequence(s: string, max: nat, libc: Libc) returns (commands: seq<Command>)
    ensures commands == Script(ScriptTokens(s), max, libc)
  {
    commands := KeepTokens(ScriptTokens(s), ScriptToken(libc), max);
  }
}
