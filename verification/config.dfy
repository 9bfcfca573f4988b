/** `hdtools/config.py`: reading `KEY=VALUE` lines from a `.env` file into
    the process environment without overriding variables that already hold
    a non-empty value. The environment is a map; the file is its sequence
    of lines, or `None` when it does not exist. */
module Config {
  import opened Wrappers
  import opened Strings

  type Env = map<string, string>

  /** What one line of the file assigns, if anything: the trimmed line is
      skipped when empty, a comment, or without `=`; otherwise the key is
      everything before the first `=` (not trimmed again) and the value is
      the rest, trimmed. */
  function ParseLine(line: string): (r: Option<(string, string)>)
    ensures r.None? <==> |Strip(line)| == 0 || Strip(line)[0] == '#' || '=' !in Strip(line)
    ensures r.Some? ==> && |r.value.0| < |Strip(line)| && Strip(line)[..|r.value.0| + 1] == r.value.0 + "="
                        && '=' !in r.value.0
                        && r.value.1 == Strip(Strip(line)[|r.value.0| + 1..])
  {
    var t := Strip(line);
    if |t| == 0 || t[0] == '#' then None
    else match Partition(t, '=')
      case None => None
      case Some((key, rest)) =>
        SplitAtKey(t, key, rest);
        Some((key, Strip(rest)))
  }

  lemma SplitAtKey(t: string, key: string, rest: string)
    requires t == key + "=" + rest
    ensures |key| < |t| && t[..|key| + 1] == key + "=" && t[|key| + 1..] == rest
  {
  }

  /** The variable exists and holds a non-empty value. */
  predicate IsSet(env: Env, key: string) {
    key in env && env[key] != ""
  }

  /** `os.environ[key] = value` on a POSIX system: a NUL character in the
      name or value is refused with a `ValueError` while the strings are
      converted, so is a name holding `=`, and an empty name reaches `setenv`, which fails with
      `EINVAL`, so Python raises an `OSError`. */
  function SetVar(env: Env, key: string, value: string): (r: Result<Env>)
    ensures r.Ok? <==> key != "" && '=' !in key && '\0' !in key && '\0' !in value
    ensures r.Ok? ==> r.value == env[key := value]
    ensures '\0' !in key && '\0' !in value && key == "" ==> r == Err("[Errno 22] Invalid argument")
  {
    if '\0' in key || '\0' in value then Err("embedded null byte")
    else if '=' in key then Err("illegal environment variable name")
    else if key == "" then Err("[Errno 22] Invalid argument")
    else Ok(env[key := value])
  }

  /** Variables that already hold a non-empty value are kept with that
      value. */
  predicate Keeps(env: Env, env': Env) {
    forall k | k in env && env[k] != "" :: k in env' && env'[k] == env[k]
  }

  /** `if key in os.environ and os.environ[key]: continue`, else store. */
  function Store(env: Env, key: string, value: string): (r: Result<Env>)
    ensures r.Ok? ==> Keeps(env, r.value)
  {
    if IsSet(env, key) then Ok(env) else SetVar(env, key, value)
  }

  /** One line of the file: stored unless the variable is already set to
      something non-empty. */
  function Step(env: Env, line: string): (r: Result<Env>)
    ensures r.Ok? ==> Keeps(env, r.value)
  {
    match ParseLine(line)
    case None => Ok(env)
    case Some((key, value)) => Store(env, key, value)
  }

  /** The loop of `load_dotenv` over the lines of an existing file; the
      first line that cannot be stored aborts it. */
  function LoadLines(env: Env, lines: seq<string>): (r: Result<Env>)
    ensures r.Ok? ==> Keeps(env, r.value)
    decreases |lines|
  {
    if |lines| == 0 then Ok(env)
    else
      var env' :- Step(env, lines[0]);
      LoadLines(env', lines[1..])
  }

  /** `load_dotenv`: nothing happens when the file does not exist. */
  function LoadDotenv(env: Env, file: Option<seq<string>>): (r: Result<Env>)
    ensures file.None? ==> r == Ok(env)
    ensures r.Ok? ==> Keeps(env, r.value)
  {
    match file
    case None => Ok(env)
    case Some(lines) => LoadLines(env, lines)
  }

  /** The values the lines assign to `key`, in file order. */
  function Assigned(lines: seq<string>, key: string): seq<string> {
    if |lines| == 0 then []
    else
      var rest := Assigned(lines[1..], key);
      match ParseLine(lines[0])
      case Some((k, v)) => if k == key then [v] + rest else rest
      case None => rest
  }

  /** The first non-empty string of `vs`, if any. */
  function FirstNonEmpty(vs: seq<string>): (r: Option<string>)
    ensures r.Some? ==> r.value in vs && r.value != ""
    ensures r.None? <==> forall i | 0 <= i < |vs| :: vs[i] == ""
  {
    if |vs| == 0 then None
    else if vs[0] != "" then Some(vs[0])
    else FirstNonEmpty(vs[1..])
  }

  /** What the environment holds for `key` once values `vs` have been
      assigned to it in order, stated without the loop: a value that was
      already non-empty stays; otherwise the first non-empty assigned value
      wins; if only empty values were assigned the variable ends up empty;
      if none were, it is as before. */
  function Resolve(env: Env, key: string, vs: seq<string>): Option<string> {
    if IsSet(env, key) then Some(env[key])
    else match FirstNonEmpty(vs)
      case Some(v) => Some(v)
      case None => if |vs| > 0 then Some("") else if key in env then Some(env[key]) else None
  }

  /** The reference value of `key` after loading `lines`. */
  function DotenvValue(env: Env, lines: seq<string>, key: string): Option<string> {
    Resolve(env, key, Assigned(lines, key))
  }

  /** Every line the loop would store is a legal assignment. */
  predicate Storable(lines: seq<string>) {
    forall i | 0 <= i < |lines| :: ParseLine(lines[i]).Some? ==>
      var (k, v) := ParseLine(lines[i]).value;
      k != "" && '\0' !in k && '\0' !in v
  }

  lemma StorableTail(lines: seq<string>)
    requires |lines| > 0 && Storable(lines)
    ensures Storable(lines[1..])
  {
    forall i | 0 <= i < |lines| - 1
      ensures lines[1..][i] == lines[i + 1]
    {
    }
  }

  lemma FirstNonEmptyCons(v: string, vs: seq<string>)
    ensures FirstNonEmpty([v] + vs) == if v != "" then Some(v) else FirstNonEmpty(vs)
  {
    assert ([v] + vs)[1..] == vs;
  }

  lemma {:induction false} AssignedHead(lines: seq<string>, key: string)
    requires |lines| > 0
    ensures ParseLine(lines[0]).None? ==> Assigned(lines, key) == Assigned(lines[1..], key)
    ensures ParseLine(lines[0]).Some? ==>
      Assigned(lines, key) ==
        if ParseLine(lines[0]).value.0 == key then [ParseLine(lines[0]).value.1] + Assigned(lines[1..], key)
        else Assigned(lines[1..], key)
  {
  }

  /** An assignment to `key` that is ignored because `key` is already set. */
  lemma ResolveKept(env: Env, key: string, v: string, vs: seq<string>)
    requires IsSet(env, key)
    ensures Resolve(env, key, [v] + vs) == Resolve(env, key, vs)
  {
  }

  /** An assignment to `key` that is stored. */
  lemma ResolveStored(env: Env, key: string, v: string, vs: seq<string>)
    requires !IsSet(env, key)
    ensures Resolve(env, key, [v] + vs) == Resolve(env[key := v], key, vs)
  {
    FirstNonEmptyCons(v, vs);
  }

  /** Storing another variable does not affect `key`. */
  lemma ResolveOther(env: Env, key: string, k: string, v: string, vs: seq<string>)
    requires k != key
    ensures Resolve(env, key, vs) == Resolve(env[k := v], key, vs)
  {
    var env' := env[k := v];
    assert IsSet(env', key) == IsSet(env, key);
    assert (key in env') == (key in env);
    assert key in env ==> env'[key] == env[key];
  }

  /** One stored line moves the reference value from the whole file to the
      rest of it. */
  lemma {:induction false} StepValue(env: Env, lines: seq<string>, key: string)
    requires |lines| > 0 && Step(env, lines[0]).Ok?
    ensures DotenvValue(env, lines, key) == DotenvValue(Step(env, lines[0]).value, lines[1..], key)
  {
    var o := ParseLine(lines[0]);
    var vs := Assigned(lines[1..], key);
    AssignedHead(lines, key);
    if o.Some? {
      var k := o.value.0;
      var v := o.value.1;
      if IsSet(env, k) {
        assert Step(env, lines[0]) == Ok(env);
        if k == key {
          ResolveKept(env, key, v, vs);
        }
      } else {
        assert Step(env, lines[0]) == Ok(env[k := v]);
        if k == key {
          ResolveStored(env, key, v, vs);
        } else {
          ResolveOther(env, key, k, v, vs);
        }
      }
    }
  }

  /** A file whose every assignment is legal loads without error. */
  lemma {:induction false} StorableLoads(env: Env, lines: seq<string>)
    requires Storable(lines)
    ensures LoadLines(env, lines).Ok?
    decreases |lines|
  {
    if |lines| > 0 {
      StorableTail(lines);
      assert Step(env, lines[0]).Ok?;
      StorableLoads(Step(env, lines[0]).value, lines[1..]);
    }
  }

  /** Whenever the loop finishes, it has computed the reference value for
      every key. */
  lemma {:induction false} LoadLinesValue(env: Env, lines: seq<string>, key: string)
    requires LoadLines(env, lines).Ok?
    ensures var r := LoadLines(env, lines).value;
      DotenvValue(env, lines, key) == if key in r then Some(r[key]) else None
    decreases |lines|
  {
    if |lines| > 0 {
      var env' := Step(env, lines[0]).value;
      LoadLinesValue(env', lines[1..], key);
      StepValue(env, lines, key);
    }
  }

  /** Loading the file never changes a variable that already has a
      non-empty value. */
  lemma NoOverride(env: Env, file: Option<seq<string>>, key: string)
    requires IsSet(env, key)
    requires LoadDotenv(env, file).Ok?
    ensures key in LoadDotenv(env, file).value && LoadDotenv(env, file).value[key] == env[key]
  {
  }

  lemma EmptyNameStep(env: Env, line: string, v: string)
    requires ParseLine(line) == Some(([], v)) && '\0' !in v && "" !in env
    ensures Step(env, line) == Err("[Errno 22] Invalid argument")
  {
  }

  /** A line whose trimmed text starts with `=` assigns the empty name,
      which `setenv` refuses with `EINVAL`, so loading fails there. */
  lemma {:induction false} EmptyNameFails(env: Env, line: string, more: seq<string>)
    requires |Strip(line)| > 0 && Strip(line)[0] == '=' && '\0' !in line
    requires "" !in env
    ensures LoadLines(env, [line] + more) == Err("[Errno 22] Invalid argument")
  {
    var v := EmptyNameParsed(line);
    EmptyNameStep(env, line, v);
    assert ([line] + more)[0] == line;
  }

  lemma EmptyNameParsed(line: string) returns (v: string)
    requires |Strip(line)| > 0 && Strip(line)[0] == '=' && '\0' !in line
    ensures ParseLine(line) == Some(([], v)) && '\0' !in v
  {
    var t := Strip(line);
    assert '=' in t;
    var r := ParseLine(line);
    var key := r.value.0;
    assert t[..|key| + 1][0] == (key + "=")[0];
    assert key == [];
    var rest := t[1..];
    v := Strip(rest);
    StripKeepsAbsent(line, '\0');
    AbsentFromSuffix(t, '\0', 1);
    StripKeepsAbsent(rest, '\0');
  }
}
