/** The text `ConjurPipe.writeSecrets` writes: `secrets.env`, one line
    `name=<json.dumps(value)>` per secret in the dictionary's order, and
    the `load_secrets.sh` activation script. A reader for the env file
    gives the inverse direction. */
module EnvFile {
  import opened Wrappers
  import opened Text
  import JsonString
  import SecretNames

  /** The lines of the `activate_script` constant, which opens with a
      newline: an empty first line. */
  const SCRIPT_LINES: seq<string> :=
    ["", "#!/usr/bin/env sh", "set -a", "source ./secrets.env", "rm ./secrets.env", "set +a"]

  /** The `activate_script` constant written to `load_secrets.sh`: its
      lines, each followed by a newline. */
  const ACTIVATE_SCRIPT: string := Terminated(SCRIPT_LINES, '\n')

  /** A secret as the fetch returns it: full identifier and value. The
      dictionary is the sequence of its entries in iteration order. */
  type Secret = (string, string)

  /** `f'{key}={value}'` without the newline, with `key` truncated to its
      short name and `value` quoted by `json.dumps`. */
  function EnvLine(secret: Secret): (r: string)
  {
    SecretNames.ShortName(secret.0) + "=" + JsonString.Dumps(secret.1)
  }

  /** The whole of `secrets.env`: every line followed by a newline. */
  function RenderEnv(secrets: seq<Secret>): (r: string)
  {
    if |secrets| == 0 then "" else EnvLine(secrets[0]) + "\n" + RenderEnv(secrets[1..])
  }

  lemma {:induction false} RenderEnvAppend(a: seq<Secret>, b: seq<Secret>)
    ensures RenderEnv(a + b) == RenderEnv(a) + RenderEnv(b)
  {
    if |a| == 0 {
      assert a + b == b;
    } else {
      assert (a + b)[0] == a[0];
      assert (a + b)[1..] == a[1..] + b;
      RenderEnvAppend(a[1..], b);
    }
  }

  /** One more secret adds its line and a newline at the end. */
  lemma RenderEnvSnoc(secrets: seq<Secret>, secret: Secret)
    ensures RenderEnv(secrets + [secret]) == RenderEnv(secrets) + (EnvLine(secret) + "\n")
  {
    RenderEnvAppend(secrets, [secret]);
    SingleLine(secret.0, secret.1);
  }

  /** Writing the first `i + 1` entries adds the line of entry `i`. */
  lemma RenderEnvPrefix(secrets: seq<Secret>, i: nat)
    requires i < |secrets|
    ensures RenderEnv(secrets[..i + 1]) == RenderEnv(secrets[..i]) + (EnvLine(secrets[i]) + "\n")
  {
    assert secrets[..i + 1] == secrets[..i] + [secrets[i]];
    RenderEnvSnoc(secrets[..i], secrets[i]);
  }

  /** The file-writing loop of `writeSecrets`, writing into a buffer
      instead of a file opened for writing, followed by the script. */
  method WriteSecrets(secrets: seq<Secret>) returns (envFile: string, script: string)
    ensures envFile == RenderEnv(secrets)
    ensures script == ACTIVATE_SCRIPT
  {
    envFile := "";
    for i := 0 to |secrets|
      invariant envFile == RenderEnv(secrets[..i])
    {
      var (key, value) := secrets[i];
      var quoted := JsonString.Dumps(value);
      var name := SecretNames.ShortName(key);
      var line := name + "=" + quoted + "\n";
      RenderEnvPrefix(secrets, i);
      envFile := envFile + line;
    }
    assert secrets[..|secrets|] == secrets;
    script := ACTIVATE_SCRIPT;
  }

  /** The file is its lines, each followed by a newline. */
  lemma {:induction false} RenderEnvIsTerminated(secrets: seq<Secret>)
    ensures RenderEnv(secrets) == Terminated(Lines(secrets), '\n')
  {
    if |secrets| > 0 {
      RenderEnvIsTerminated(secrets[1..]);
      assert Lines(secrets)[1..] == Lines(secrets[1..]);
    }
  }

  // ---------------------------------------------------------------------
  // Reading the file back

  /** Reads one `NAME=value` line: the name ends at the first `=`, and the
      rest must be one JSON string. */
  function ParseLine(line: string): (r: Option<Secret>)
  {
    var parts := Split(line, '=');
    if |parts| < 2 then None
    else match JsonString.Loads(Join(parts[1..], '='))
      case None => None
      case Some(value) => Some((parts[0], value))
  }

  function ParseLines(lines: seq<string>): (r: Option<seq<Secret>>)
  {
    if |lines| == 0 then Some([])
    else match ParseLine(lines[0])
      case None => None
      case Some(entry) =>
        match ParseLines(lines[1..])
        case None => None
        case Some(rest) => Some([entry] + rest)
  }

  /** Reads an env file: newline-terminated lines, each `NAME=value`. */
  function ParseEnv(text: string): (r: Option<seq<Secret>>)
  {
    var lines := Split(text, '\n');
    if Last(lines) != "" then None else ParseLines(lines[..|lines| - 1])
  }

  /** The entries with every identifier replaced by its short name: the
      variables that sourcing the file is meant to set. */
  function Renamed(secrets: seq<Secret>): (r: seq<Secret>)
  {
    seq(|secrets|, i requires 0 <= i < |secrets| => (SecretNames.ShortName(secrets[i].0), secrets[i].1))
  }

  /** The lines `secrets.env` is made of. */
  function Lines(secrets: seq<Secret>): (r: seq<string>)
  {
    seq(|secrets|, i requires 0 <= i < |secrets| => EnvLine(secrets[i]))
  }

  /** A short name that can stand on the left of `=` on one line. */
  predicate IsLineName(name: string)
  {
    '\n' !in name && '=' !in name
  }

  /** One line: the short name, `=`, and the quoted value, which begins
      and ends with `"` and holds no raw newline. Between the quotes every
      `"` follows a `\` and, read escape unit by escape unit, there is no
      raw quote; the quoted value decodes to the value. */
  lemma EnvLineShape(secret: Secret)
    ensures var name, quoted := SecretNames.ShortName(secret.0), JsonString.Dumps(secret.1);
      && EnvLine(secret) == name + "=" + quoted
      && quoted[0] == '"' && quoted[|quoted| - 1] == '"'
      && '\n' !in quoted
      && JsonString.QuotesEscaped(quoted[1..|quoted| - 1])
      && JsonString.NoRawQuote(quoted[1..|quoted| - 1])
      && JsonString.Loads(quoted) == Some(secret.1)
  {
    JsonString.DumpsShape(secret.1);
    JsonString.RoundTrip(secret.1);
  }

  /** A line whose name is a line name is read back as that name and the
      original value. */
  lemma ParseEnvLine(secret: Secret)
    requires IsLineName(SecretNames.ShortName(secret.0))
    ensures ParseLine(EnvLine(secret)) == Some((SecretNames.ShortName(secret.0), secret.1))
  {
    var name, quoted := SecretNames.ShortName(secret.0), JsonString.Dumps(secret.1);
    assert EnvLine(secret) == name + ['='] + quoted;
    SplitConcat(name, quoted, '=');
    SplitNoSep(name, '=');
    var parts := Split(EnvLine(secret), '=');
    assert parts == [name] + Split(quoted, '=');
    assert parts[1..] == Split(quoted, '=');
    JoinSplit(quoted, '=');
    JsonString.RoundTrip(secret.1);
  }

  /** The file splits into exactly one line per secret, in order, and
      ends with a newline, when no short name contains a newline. */
  lemma RenderEnvLines(secrets: seq<Secret>)
    requires forall i :: 0 <= i < |secrets| ==> '\n' !in SecretNames.ShortName(secrets[i].0)
    ensures Split(RenderEnv(secrets), '\n') == Lines(secrets) + [""]
  {
    RenderEnvIsTerminated(secrets);
    forall i | 0 <= i < |secrets| ensures '\n' !in Lines(secrets)[i] {
      EnvLineNoNewline(secrets[i]);
    }
    SplitTerminated(Lines(secrets), '\n');
  }

  /** A line holds no newline when its name holds none. */
  lemma EnvLineNoNewline(secret: Secret)
    requires '\n' !in SecretNames.ShortName(secret.0)
    ensures '\n' !in EnvLine(secret)
  {
    JsonString.DumpsShape(secret.1);
  }

  lemma {:induction false} ParseAllLines(secrets: seq<Secret>)
    requires forall i :: 0 <= i < |secrets| ==> IsLineName(SecretNames.ShortName(secrets[i].0))
    ensures ParseLines(Lines(secrets)) == Some(Renamed(secrets))
  {
    if |secrets| > 0 {
      var lines := Lines(secrets);
      LinesCons(secrets);
      RenamedCons(secrets);
      ParseEnvLine(secrets[0]);
      ParseAllLines(secrets[1..]);
      var entry := (SecretNames.ShortName(secrets[0].0), secrets[0].1);
      assert ParseLines(lines) == Some([entry] + Renamed(secrets[1..]));
    } else {
      assert Lines(secrets) == [] && Renamed(secrets) == [];
    }
  }

  lemma LinesCons(secrets: seq<Secret>)
    requires |secrets| > 0
    ensures Lines(secrets)[0] == EnvLine(secrets[0]) && Lines(secrets)[1..] == Lines(secrets[1..])
  {
  }

  lemma RenamedCons(secrets: seq<Secret>)
    requires |secrets| > 0
    ensures Renamed(secrets) == [(SecretNames.ShortName(secrets[0].0), secrets[0].1)] + Renamed(secrets[1..])
  {
    assert Renamed(secrets)[1..] == Renamed(secrets[1..]);
  }

  /** Reading `secrets.env` back gives every secret, in order, under its
      short name and with its exact value, provided no short name holds a
      newline or `=`. */
  lemma RenderEnvRoundTrip(secrets: seq<Secret>)
    requires forall i :: 0 <= i < |secrets| ==> IsLineName(SecretNames.ShortName(secrets[i].0))
    ensures ParseEnv(RenderEnv(secrets)) == Some(Renamed(secrets))
  {
    RenderEnvLines(secrets);
    var lines := Lines(secrets) + [""];
    assert lines[..|lines| - 1] == Lines(secrets);
    ParseAllLines(secrets);
  }

  /** With the intended name check on the requested identifiers, the
      file holds one line per secret and reads back under pairwise
      distinct shell variable names, so no secret overwrites another when
      the file is sourced. */
  lemma StrictNamesRoundTrip(ids: seq<string>, secrets: seq<Secret>)
    requires |secrets| == |ids| && forall i :: 0 <= i < |ids| ==> secrets[i].0 == ids[i]
    requires SecretNames.ValidateStrict(ids).Success?
    ensures ParseEnv(RenderEnv(secrets)) == Some(Renamed(secrets))
    ensures forall i :: 0 <= i < |secrets| ==> SecretNames.IsShellName(Renamed(secrets)[i].0)
    ensures forall i, j :: 0 <= i < j < |secrets| ==> Renamed(secrets)[i].0 != Renamed(secrets)[j].0
  {
    var keys := SecretNames.ShortNames(ids);
    SecretNames.ValidateStrictSucceeds(ids);
    RenamedKeys(ids, secrets);
    ShellNamesRoundTrip(secrets, keys);
  }

  lemma RenamedKeys(ids: seq<string>, secrets: seq<Secret>)
    requires |secrets| == |ids| && forall i :: 0 <= i < |ids| ==> secrets[i].0 == ids[i]
    ensures forall i :: 0 <= i < |secrets| ==> Renamed(secrets)[i].0 == SecretNames.ShortNames(ids)[i]
  {
  }

  /** Secrets whose short names are pairwise distinct shell variable
      names read back under those names, with no line overwriting another. */
  lemma ShellNamesRoundTrip(secrets: seq<Secret>, keys: seq<string>)
    requires |keys| == |secrets| && forall i :: 0 <= i < |secrets| ==> Renamed(secrets)[i].0 == keys[i]
    requires SecretNames.Distinct(keys) && forall i :: 0 <= i < |keys| ==> SecretNames.IsShellName(keys[i])
    ensures ParseEnv(RenderEnv(secrets)) == Some(Renamed(secrets))
    ensures forall i :: 0 <= i < |secrets| ==> SecretNames.IsShellName(Renamed(secrets)[i].0)
    ensures forall i, j :: 0 <= i < j < |secrets| ==> Renamed(secrets)[i].0 != Renamed(secrets)[j].0
  {
    forall i | 0 <= i < |secrets| ensures IsLineName(SecretNames.ShortName(secrets[i].0)) {
      ShellNamesAreLineNames(keys[i]);
    }
    RenderEnvRoundTrip(secrets);
  }

  lemma ShellNamesAreLineNames(name: string)
    requires SecretNames.IsShellName(name)
    ensures IsLineName(name)
  {
    assert !SecretNames.IsNameChar('\n') && !SecretNames.IsNameChar('=');
  }

  /** As written, the check lets a name followed by a newline through, and
      its line breaks in two: the file has one line too many and no
      longer reads back. */
  lemma TrailingNewlineBreaksLine(name: string, value: string)
    requires SecretNames.IsShellName(name)
    ensures SecretNames.Validate([name + "\n"]).Success?
    ensures |Split(RenderEnv([(name + "\n", value)]), '\n')| == 3
    ensures ParseEnv(RenderEnv([(name + "\n", value)])) == None
  {
    SecretNames.TrailingNewlineAccepted(name);
    ShellNamesAreLineNames(name);
    BrokenFile(name, value);
  }

  /** The file for an identifier that is a line name and a newline. */
  lemma BrokenFile(name: string, value: string)
    requires IsLineName(name) && SecretNames.ShortName(name + "\n") == name + "\n"
    ensures |Split(RenderEnv([(name + "\n", value)]), '\n')| == 3
    ensures ParseEnv(RenderEnv([(name + "\n", value)])) == None
  {
    var id := name + "\n";
    var second := "=" + JsonString.Dumps(value);
    assert RenderEnv([(id, value)]) == name + ['\n'] + (second + ['\n'] + "") by {
      SingleLine(id, value);
    }
    BrokenLine(name, second);
  }

  /** A file of one secret is its line and a newline. */
  lemma SingleLine(id: string, value: string)
    ensures RenderEnv([(id, value)]) == EnvLine((id, value)) + "\n"
  {
    assert [(id, value)][1..] == [];
  }

  lemma BrokenLine(name: string, second: string)
    requires IsLineName(name)
    requires |second| >= 1 && second[0] == '=' && '\n' !in second
    ensures Split(name + ['\n'] + (second + ['\n'] + ""), '\n') == [name, second, ""]
    ensures ParseEnv(name + ['\n'] + (second + ['\n'] + "")) == None
  {
    SplitNoSep(name, '\n');
    SplitNoSep(second, '\n');
    SplitConcat(second, "", '\n');
    SplitConcat(name, second + ['\n'] + "", '\n');
    var lines := Split(name + ['\n'] + (second + ['\n'] + ""), '\n');
    assert lines[..2] == [name, second];
    SplitNoSep(name, '=');
  }

  /** The script is, line by line: an empty line, the `sh` shebang,
      `set -a`, `source ./secrets.env`, `rm ./secrets.env`, `set +a`, each
      followed by a newline; so it loads the env file with every variable
      exported and removes the file right after. */
  lemma ActivateScriptLines()
    ensures Split(ACTIVATE_SCRIPT, '\n') == SCRIPT_LINES + [""]
    ensures SCRIPT_LINES[2] == "set -a" && SCRIPT_LINES[5] == "set +a"
    ensures SCRIPT_LINES[3] == "source ./secrets.env" && SCRIPT_LINES[4] == "rm ./secrets.env"
  {
    SplitTerminated(SCRIPT_LINES, '\n');
  }

  /** A test line: the identifier loses its path, the value is quoted. */
  lemma EnvLineOfPath(path: string, name: string, value: string)
    requires '/' !in name
    ensures EnvLine((name, value)) == name + "=" + JsonString.Dumps(value)
    ensures EnvLine((path + "/" + name, value)) == name + "=" + JsonString.Dumps(value)
  {
    SecretNames.ShortNameOfPath(path, name);
  }

  /** A line whose value is plain: the value appears between quotes as it is. */
  lemma PlainLine(path: string, name: string, value: string)
    requires '/' !in name && JsonString.IsPlain(value)
    ensures EnvLine((name, value)) == name + "=" + "\"" + value + "\""
    ensures EnvLine((path + "/" + name, value)) == name + "=" + "\"" + value + "\""
  {
    EnvLineOfPath(path, name, value);
    JsonString.DumpsPlain(value);
  }

  /** A line whose value has one special character between plain runs:
      only that character is escaped. */
  lemma EscapedLine(name: string, a: string, c: char, b: string)
    requires '/' !in name && JsonString.IsPlain(a) && JsonString.IsPlain(b)
    ensures EnvLine((name, a + [c] + b)) == name + "=" + "\"" + a + JsonString.EscapeChar(c) + b + "\""
  {
    var v := a + [c] + b;
    var x, q, e := name + "=", "\"", JsonString.EscapeChar(c);
    EnvLineOfPath("", name, v);
    JsonString.DumpsAround(a, c, b);
    Associative(x, q + a + e + b, q);
    Associative(x, q + a + e, b);
    Associative(x, q + a, e);
    Associative(x, q, a);
  }

  // The lines of the test's expected `secrets.env`, one lemma each.

  /** `'secret1': 'value 1'` gives `secret1="value 1"`. */
  lemma TestLineWithSpace()
    ensures EnvLine(("secret1", "value 1")) == "secret1" + "=" + "\"" + "value 1" + "\""
  {
    PlainLine("", "secret1", "value 1");
  }

  /** `'secret2': 'value=2'` gives `secret2="value=2"`. */
  lemma TestLineWithEquals()
    ensures EnvLine(("secret2", "value=2")) == "secret2" + "=" + "\"" + "value=2" + "\""
  {
    PlainLine("", "secret2", "value=2");
  }

  /** `'secret3': 'value"3'` gives `secret3="value\"3"`. */
  lemma TestLineWithQuote()
    ensures EnvLine(("secret3", "value" + "\"" + "3")) == "secret3" + "=" + "\"" + "value" + "\\\"" + "3" + "\""
  {
    EscapedLine("secret3", "value", '"', "3");
  }

  /** `'path/secret4': "value'4"` gives `secret4="value'4"`. */
  lemma TestLineWithPath()
    ensures EnvLine(("path" + "/" + "secret4", "value'4")) == "secret4" + "=" + "\"" + "value'4" + "\""
  {
    PlainLine("path", "secret4", "value'4");
  }

  /** The test's whole expected `secrets.env`: its four lines, in the
      order of the dictionary, each followed by a newline. */
  lemma TestEnvFile()
    ensures RenderEnv([("secret1", "value 1"), ("secret2", "value=2"),
                       ("secret3", "value" + "\"" + "3"), ("path" + "/" + "secret4", "value'4")])
      == Terminated(["secret1" + "=" + "\"" + "value 1" + "\"",
                     "secret2" + "=" + "\"" + "value=2" + "\"",
                     "secret3" + "=" + "\"" + "value" + "\\\"" + "3" + "\"",
                     "secret4" + "=" + "\"" + "value'4" + "\""], '\n')
  {
    TestLineWithSpace();
    TestLineWithEquals();
    TestLineWithQuote();
    TestLineWithPath();
    FourLines(("secret1", "value 1"), ("secret2", "value=2"),
              ("secret3", "value" + "\"" + "3"), ("path" + "/" + "secret4", "value'4"));
  }

  /** A file of four entries is their four lines, in order, each followed
      by a newline. */
  lemma FourLines(s1: Secret, s2: Secret, s3: Secret, s4: Secret)
    ensures RenderEnv([s1, s2, s3, s4]) == Terminated([EnvLine(s1), EnvLine(s2), EnvLine(s3), EnvLine(s4)], '\n')
  {
    var secrets := [s1, s2, s3, s4];
    RenderEnvIsTerminated(secrets);
    assert Lines(secrets) == [EnvLine(s1), EnvLine(s2), EnvLine(s3), EnvLine(s4)];
  }
}
