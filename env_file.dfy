/**
 * The hand-written `.env` reader of the Drive-user script: the file is split
 * into lines, every line of the form `key=value` is matched, both sides are
 * trimmed, one pair of surrounding quotes is stripped from the value, and the
 * pair is assigned into the environment, so a later line wins. Reading the
 * file is not modelled: its text is a parameter.
 */
module EnvFile {
  import opened Options
  import opened Strings

  type Env = map<string, string>

  /** A matched `key=value` line, after trimming and quote stripping. */
  datatype Assignment = Assignment(key: string, value: string)

  /** The characters a regular-expression `.` does not match. */
  predicate IsLineTerminator(c: char) {
    c == '\n' || c == '\r' || c == '\U{2028}' || c == '\U{2029}'
  }

  predicate HasLineTerminator(s: string) {
    exists i :: 0 <= i < |s| && IsLineTerminator(s[i])
  }

  predicate IsQuote(c: char) { c == '\'' || c == '"' }

  /**
   * `value.replace(/^['"](.*)['"]$/, '$1')`: a value of at least two
   * characters that starts and ends with a quote, either kind and not
   * necessarily the same, loses those two characters.
   */
  function StripQuotes(value: string): (r: string)
    ensures (|value| >= 2 && IsQuote(value[0]) && IsQuote(value[|value| - 1])
             && !HasLineTerminator(value[1..|value| - 1])) ==> r == value[1..|value| - 1]
    ensures |value| < 2 || !IsQuote(value[0]) || !IsQuote(value[|value| - 1]) ==> r == value
    ensures |value| >= 2 && HasLineTerminator(value[1..|value| - 1]) ==> r == value
  {
    if |value| >= 2 && IsQuote(value[0]) && IsQuote(value[|value| - 1])
       && !HasLineTerminator(value[1..|value| - 1])
    then value[1..|value| - 1]
    else value
  }

  /**
   * `line.match(/^([^=]+)=(.*)$/)`: the key is the non-empty text before the
   * first `=`, the value everything after it, which must hold no line
   * terminator.
   */
  function ParseLine(line: string): (r: Option<Assignment>)
    ensures '=' !in line ==> r.None?
    ensures line != [] && line[0] == '=' ==> r.None?
    ensures r.Some? ==> '=' !in r.value.key
  {
    IndexOfSpec(line, '=');
    match IndexOf(line, '=')
    case None => None
    case Some(i) =>
      if i == 0 || HasLineTerminator(line[i + 1..]) then None
      else
        TrimSpec(line[..i]);
        Some(Assignment(Trim(line[..i]), StripQuotes(Trim(line[i + 1..]))))
  }

  /** A `key=value` line with a non-empty key free of `=` is matched, and the value may hold more `=`. */
  lemma ParseAssignmentLine(key: string, value: string)
    requires key != [] && '=' !in key && !HasLineTerminator(value)
    ensures ParseLine(key + "=" + value) == Some(Assignment(Trim(key), StripQuotes(Trim(value))))
  {
    var line := key + "=" + value;
    IndexOfConcat(key, value, '=');
    assert line[..|key|] == key;
    assert line[|key| + 1..] == value;
  }

  /** A line whose value part holds a carriage return is not matched and so is skipped. */
  lemma CarriageReturnSkipped(key: string, value: string)
    requires '=' !in key && '\r' in value
    ensures ParseLine(key + "=" + value).None?
  {
    var line := key + "=" + value;
    IndexOfConcat(key, value, '=');
    assert line[|key| + 1..] == value;
  }

  /** One step of the `forEach`: a matched line assigns its key. */
  function ApplyLine(env: Env, line: string): (r: Env)
    ensures ParseLine(line).None? ==> r == env
    ensures ParseLine(line).Some? ==> r.Keys == env.Keys + {ParseLine(line).value.key}
    ensures ParseLine(line).Some? ==> r[ParseLine(line).value.key] == ParseLine(line).value.value
  {
    match ParseLine(line)
    case None => env
    case Some(a) => env[a.key := a.value]
  }

  /** The environment after processing `lines` in order. */
  function ApplyLines(env: Env, lines: seq<string>): (r: Env)
    ensures env.Keys <= r.Keys
  {
    if lines == [] then env else ApplyLine(ApplyLines(env, lines[..|lines| - 1]), lines[|lines| - 1])
  }

  /** The key a line assigns, if it is matched. */
  predicate Assigns(line: string, key: string) {
    ParseLine(line).Some? && ParseLine(line).value.key == key
  }

  /** The `.env` loading loop: split on `\n` and apply every line in order. */
  method LoadEnv(content: string, env: Env) returns (result: Env)
    ensures result == ApplyLines(env, Split(content, '\n'))
  {
    var lines := Split(content, '\n');
    result := env;
    var i := 0;
    while i < |lines|
      invariant 0 <= i <= |lines|
      invariant result == ApplyLines(env, lines[..i])
    {
      assert lines[..i + 1][..i] == lines[..i];
      match ParseLine(lines[i]) {
        case Some(a) => result := result[a.key := a.value];
        case None =>
      }
      i := i + 1;
    }
    assert lines[..|lines|] == lines;
  }

  /** A key that no line assigns keeps its value, or stays absent. */
  lemma {:induction false} UnassignedKeyUntouched(env: Env, lines: seq<string>, key: string)
    requires forall i :: 0 <= i < |lines| ==> !Assigns(lines[i], key)
    ensures key in ApplyLines(env, lines) <==> key in env
    ensures key in env ==> ApplyLines(env, lines)[key] == env[key]
  {
    if lines != [] {
      var init := lines[..|lines| - 1];
      assert forall i :: 0 <= i < |init| ==> init[i] == lines[i];
      UnassignedKeyUntouched(env, init, key);
    }
  }

  /** The last line that assigns a key decides its value. */
  lemma {:induction false} LastAssignmentWins(env: Env, lines: seq<string>, j: nat, a: Assignment)
    requires j < |lines| && ParseLine(lines[j]) == Some(a)
    requires forall i :: j < i < |lines| ==> !Assigns(lines[i], a.key)
    ensures a.key in ApplyLines(env, lines) && ApplyLines(env, lines)[a.key] == a.value
  {
    var init := lines[..|lines| - 1];
    if j < |lines| - 1 {
      assert forall i :: j < i < |init| ==> init[i] == lines[i];
      LastAssignmentWins(env, init, j, a);
    }
  }
}
