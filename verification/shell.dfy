/** The parsing pieces of the interactive shell in `hdtools/cli.py`: the
    numbered identity menu and its choice validation, the splitting of a
    command line, the extraction of the vault id from a record's `zid`, and
    the three-state module authorisation label. The prompts themselves are
    sequences of answers given in advance. */
module Shell {
  import opened Wrappers
  import opened Strings
  import opened Json

  // ---------------------------------------------------------------------
  // Identity menu

  /** `x or [""]`: a falsy value is replaced by a list holding one empty
      string. */
  function OrBlank(v: Value): (r: Value)
    ensures Truthy(r)
    ensures Truthy(v) ==> r == v
  {
    if Truthy(v) then v else Arr([Str("")])
  }

  /** The name list stored under `key`, with a single empty name standing in
      for a missing or falsy entry. */
  function NameList(fields: seq<(string, Value)>, key: string): Value {
    OrBlank(FieldOr(fields, key, Arr([Str("")])))
  }

  const NoUsername := "<no username>"

  /** The text of a menu line once its parts are known. */
  function MenuText(i: nat, display: Value, last: Value, user: Value): (r: string)
    ensures |NatToString(i + 1)| + 2 <= |r| && r[..|NatToString(i + 1)| + 2] == NatToString(i + 1) + ". "
  {
    var shown := if Truthy(user) then PyStr(user) else NoUsername;
    var prefix := NatToString(i + 1) + ". ";
    var line := prefix + (PyStr(display) + " " + PyStr(last) + " (" + shown + ")");
    assert line[..|prefix|] == prefix;
    line
  }

  /** The menu line `prompt_identity_choice` prints for the item at
      position `i`: "n. display last (username)". The display name is the
      preferred name unless that is empty, then the first name. */
  function ChoiceLine(i: nat, item: Value): (r: Result<string>)
    ensures !item.Obj? ==> r == Err(NoAttribute(item, "get"))
    ensures r.Ok? ==> |NatToString(i + 1)| + 2 <= |r.value| && r.value[..|NatToString(i + 1)| + 2] == NatToString(i + 1) + ". "
  {
    if !item.Obj? then Err(NoAttribute(item, "get"))
    else
      var name := NameList(item.fields, "preferredName");
      var first := NameList(item.fields, "firstName");
      var last := NameList(item.fields, "lastName");
      var uname := NameList(item.fields, "primaryUserName");
      var n0 :- Index0(name);
      var display :- if Truthy(n0) then Ok(n0) else Index0(first);
      var l0 :- Index0(last);
      var u0 :- Index0(uname);
      Ok(MenuText(i, display, l0, u0))
  }

  /** For an identity whose name fields are non-empty lists starting with
      a string, the preferred name is shown unless empty, then the first
      name; an empty username is shown as "<no username>" (see
      `MenuTextOfStrings`). Only the first element of each list is read. */
  lemma DisplayNameFallback(i: nat, fields: seq<(string, Value)>, preferred: string, first: string, last: string, user: string,
                            pm: seq<Value>, fm: seq<Value>, lm: seq<Value>, um: seq<Value>)
    requires Lookup(fields, "preferredName") == Some(Arr([Str(preferred)] + pm))
    requires Lookup(fields, "firstName") == Some(Arr([Str(first)] + fm))
    requires Lookup(fields, "lastName") == Some(Arr([Str(last)] + lm))
    requires Lookup(fields, "primaryUserName") == Some(Arr([Str(user)] + um))
    ensures ChoiceLine(i, Obj(fields)) ==
      Ok(MenuText(i, Str(if preferred != "" then preferred else first), Str(last), Str(user)))
  {
    var name := NameList(fields, "preferredName");
    var fst := NameList(fields, "firstName");
    assert name == Arr([Str(preferred)] + pm) && Index0(name) == Ok(Str(preferred));
    assert fst == Arr([Str(first)] + fm) && Index0(fst) == Ok(Str(first));
    assert Index0(NameList(fields, "lastName")) == Ok(Str(last));
    assert Index0(NameList(fields, "primaryUserName")) == Ok(Str(user));
    assert Truthy(Str(preferred)) <==> preferred != "";
  }

  /** How a menu line reads when all parts are strings. */
  lemma MenuTextOfStrings(i: nat, display: string, last: string, user: string)
    ensures MenuText(i, Str(display), Str(last), Str(user)) ==
      NatToString(i + 1) + ". " + display + " " + last + " (" + (if user != "" then user else NoUsername) + ")"
  {
  }

  /** Missing name fields all default to the empty name. */
  lemma EmptyRecordLine(i: nat)
    ensures ChoiceLine(i, Obj([])) == Ok(MenuText(i, Str(""), Str(""), Str("")))
  {
  }

  /** The menu answer `input` selects item `k` (counted from 0) of `n`: the
      trimmed answer consists of ASCII digits and its value is between 1 and
      `n`. */
  function ChoiceIndex(input: string, n: nat): (r: Option<nat>)
    ensures r.Some? <==> IsDigits(Strip(input)) && 1 <= DigitsValue(Strip(input)) <= n
    ensures r.Some? ==> r.value < n && r.value == DigitsValue(Strip(input)) - 1
  {
    var c := Strip(input);
    if IsDigits(c) && 1 <= DigitsValue(c) <= n then Some(DigitsValue(c) - 1) else None
  }

  /** Typing the number shown in front of item `k` selects it, whatever
      whitespace surrounds the number. */
  lemma {:induction false} ChoiceRoundTrip(k: nat, n: nat, pad: string)
    requires k < n && IsBlank(pad)
    ensures ChoiceIndex(NatToString(k + 1), n) == Some(k)
    ensures ChoiceIndex(pad + NatToString(k + 1) + pad, n) == Some(k)
  {
    var s := NatToString(k + 1);
    assert !IsSpace(s[0]) && !IsSpace(s[|s| - 1]);
    StripOfTrimmed(s);
    ChoiceOfStripped(s, k, n);
    assert Strip(pad + s + pad) == s by {
      StripAround(pad, s, pad);
    }
    ChoiceOfStripped(pad + s + pad, k, n);
  }

  lemma ChoiceOfStripped(input: string, k: nat, n: nat)
    requires k < n && Strip(input) == NatToString(k + 1)
    ensures ChoiceIndex(input, n) == Some(k)
  {
    DigitsRoundTrip(k + 1);
  }

  /** The `while True` loop of `prompt_identity_choice`, over what each
      answer given in turn selects: the position of the first accepted
      answer, or `None` when every answer is refused. */
  function FirstChoice(choices: seq<Option<nat>>, from: nat): (r: Option<nat>)
    requires from <= |choices|
    ensures r.Some? ==> from <= r.value < |choices| && choices[r.value].Some?
    ensures r.Some? ==> forall j | from <= j < r.value :: choices[j].None?
    ensures r.None? <==> forall j | from <= j < |choices| :: choices[j].None?
    decreases |choices| - from
  {
    if from == |choices| then None
    else if choices[from].Some? then Some(from)
    else FirstChoice(choices, from + 1)
  }

  /** What each answer given in turn selects from a menu of `n` items. */
  function Choices(answers: seq<string>, n: nat): (cs: seq<Option<nat>>)
    ensures |cs| == |answers| && forall j | 0 <= j < |answers| :: cs[j] == ChoiceIndex(answers[j], n)
  {
    seq(|answers|, j requires 0 <= j < |answers| => ChoiceIndex(answers[j], n))
  }

  /** The lines printed for a list, from the item at position `from` on:
      one line per item, formed from its position and the item, the first
      item whose line cannot be formed aborting the rest. Both the identity
      menu and the module list print this way. */
  function NumberedLines(items: seq<Value>, from: nat, line: (nat, Value) -> Result<string>): (r: Result<seq<string>>)
    requires from <= |items|
    ensures r.Ok? <==> forall k | from <= k < |items| :: line(k, items[k]).Ok?
    ensures r.Ok? ==> |r.value| == |items| - from
    ensures r.Ok? ==> forall k | from <= k < |items| :: r.value[k - from] == line(k, items[k]).value
    decreases |items| - from
  {
    if from == |items| then Ok([])
    else
      match line(from, items[from])
      case Err(e) => Err(e)
      case Ok(first) =>
        match NumberedLines(items, from + 1, line)
        case Err(e) => Err(e)
        case Ok(rest) =>
          NumberedShift(items, from, line, first, rest);
          Ok([first] + rest)
  }

  lemma NumberedShift(items: seq<Value>, from: nat, line: (nat, Value) -> Result<string>, first: string, rest: seq<string>)
    requires from < |items| && |rest| == |items| - from - 1
    requires forall k | from + 1 <= k < |items| :: line(k, items[k]).Ok? && rest[k - (from + 1)] == line(k, items[k]).value
    ensures forall k | from < k < |items| :: line(k, items[k]).Ok? && ([first] + rest)[k - from] == line(k, items[k]).value
  {
    forall k | from < k < |items|
      ensures line(k, items[k]).Ok? && ([first] + rest)[k - from] == line(k, items[k]).value
    {
      assert ([first] + rest)[k - from] == rest[k - (from + 1)];
    }
  }

  /** Numbered lines fail with the error of the first item whose line
      cannot be formed. */
  lemma {:induction false} NumberedFirstError(items: seq<Value>, from: nat, k: nat, line: (nat, Value) -> Result<string>)
    requires from <= k < |items| && line(k, items[k]).Err?
    requires forall j | from <= j < k :: line(j, items[j]).Ok?
    ensures NumberedLines(items, from, line) == Err(line(k, items[k]).msg)
    decreases k - from
  {
    if from < k {
      NumberedFirstError(items, from + 1, k, line);
    }
  }

  /** The menu `prompt_identity_choice` prints before it asks, from the
      item at position `from` on: one line per item, the first item whose
      line cannot be formed aborting the prompt. */
  function MenuLines(items: seq<Value>, from: nat): (r: Result<seq<string>>)
    requires from <= |items|
    ensures r.Ok? <==> forall k | from <= k < |items| :: ChoiceLine(k, items[k]).Ok?
    ensures r.Ok? ==> |r.value| == |items| - from
    ensures r.Ok? ==> forall k | from <= k < |items| :: r.value[k - from] == ChoiceLine(k, items[k]).value
  {
    NumberedLines(items, from, ChoiceLine)
  }

  /** The menu fails with the error of the first item whose line cannot be
      formed. */
  lemma MenuLinesFirstError(items: seq<Value>, from: nat, k: nat)
    requires from <= k < |items| && ChoiceLine(k, items[k]).Err?
    requires forall j | from <= j < k :: ChoiceLine(j, items[j]).Ok?
    ensures MenuLines(items, from) == Err(ChoiceLine(k, items[k]).msg)
  {
    NumberedFirstError(items, from, k, ChoiceLine);
  }

  /** The `while True` loop of `prompt_identity_choice`: the item chosen
      by the first acceptable answer, nothing when no answer is
      acceptable. */
  function AnswerLoop(items: seq<Value>, answers: seq<string>): (r: Option<Value>)
    ensures r.Some? <==> exists j | 0 <= j < |answers| :: ChoiceIndex(answers[j], |items|).Some?
    ensures r.Some? ==> r.value in items
  {
    var choices := Choices(answers, |items|);
    match FirstChoice(choices, 0)
    case None => None
    case Some(j) => Some(items[choices[j].value])
  }

  /** `prompt_identity_choice`: the menu is printed first, so an item whose
      line cannot be formed raises before anything is asked; then the item
      chosen by the first acceptable answer, nothing when no answer is
      acceptable. */
  function PromptIdentityChoice(items: seq<Value>, answers: seq<string>): (r: Result<Option<Value>>)
    ensures r.Err? <==> MenuLines(items, 0).Err?
    ensures r.Err? ==> r.msg == MenuLines(items, 0).msg
    ensures r.Ok? ==> (r.value.Some? <==> exists j | 0 <= j < |answers| :: ChoiceIndex(answers[j], |items|).Some?)
    ensures r.Ok? && r.value.Some? ==> r.value.value in items
  {
    var _ :- MenuLines(items, 0);
    Ok(AnswerLoop(items, answers))
  }

  /** An item that is not an object stops the prompt while the menu is
      printed, whatever answers would have followed. */
  lemma PromptFailsOnNonObject(items: seq<Value>, answers: seq<string>, k: nat)
    requires k < |items| && !items[k].Obj?
    requires forall j | 0 <= j < k :: ChoiceLine(j, items[j]).Ok?
    ensures PromptIdentityChoice(items, answers) == Err(NoAttribute(items[k], "get"))
  {
    MenuLinesFirstError(items, 0, k);
  }

  /** Answer `j` is the first one the menu accepts. */
  predicate FirstAccepted(answers: seq<string>, n: nat, j: nat) {
    && j < |answers| && ChoiceIndex(answers[j], n).Some?
    && forall j' | 0 <= j' < j :: ChoiceIndex(answers[j'], n).None?
  }

  /** Once the menu is printed, the prompt returns the item the first
      acceptable answer selects, whatever answers follow it. */
  lemma PromptPicksFirst(items: seq<Value>, answers: seq<string>, j: nat)
    requires MenuLines(items, 0).Ok?
    requires FirstAccepted(answers, |items|, j)
    ensures PromptIdentityChoice(items, answers) == Ok(Some(items[ChoiceIndex(answers[j], |items|).value]))
  {
    LoopPicksFirst(items, answers, j);
  }

  lemma LoopPicksFirst(items: seq<Value>, answers: seq<string>, j: nat)
    requires FirstAccepted(answers, |items|, j)
    ensures AnswerLoop(items, answers) == Some(items[ChoiceIndex(answers[j], |items|).value])
  {
    var choices := Choices(answers, |items|);
    assert forall j' | 0 <= j' < j :: choices[j'].None?;
    FirstChoiceIs(choices, j);
  }

  /** The loop stops at the first accepted answer. */
  lemma FirstChoiceIs(choices: seq<Option<nat>>, j: nat)
    requires j < |choices| && choices[j].Some?
    requires forall j' | 0 <= j' < j :: choices[j'].None?
    ensures FirstChoice(choices, 0) == Some(j)
  {
    var f := FirstChoice(choices, 0);
    assert f.Some?;
  }

  /** With an empty list no answer is ever accepted. */
  lemma NoItemsNoChoice(answers: seq<string>)
    ensures PromptIdentityChoice([], answers) == Ok(None)
  {
  }

  // ---------------------------------------------------------------------
  // Command line

  datatype Command =
    | Skip                 // blank line
    | Exit                 // `exit` or `quit`
    | Help
    | Usage                // `search` without an argument
    | Search(arg: string)  // the argument is passed on untrimmed
    | Fail(msg: string)    // what the `except Exception` handler prints

  /** The handler for an unknown command formats a name that is never
      defined, so the `NameError` is what gets printed. */
  const UnknownCommand := "Error: name 'command' is not defined"

  /** The dispatch in `run` for one input line. */
  function ParseCommand(input: string): (r: Command)
    ensures r == Skip <==> IsBlank(input)
    ensures r == Exit <==> Lower(Strip(input)) == "exit" || Lower(Strip(input)) == "quit"
  {
    Dispatch(Strip(input))
  }

  /** The dispatch on the stripped line. */
  function Dispatch(line: string): (r: Command)
    ensures r == Skip <==> |line| == 0
    ensures r == Exit <==> Lower(line) == "exit" || Lower(line) == "quit"
  {
    if |line| == 0 then Skip
    else if Lower(line) == "exit" || Lower(line) == "quit" then Exit
    else if Lower(line) == "help" then Help
    else
      var (cmd, arg) := match Partition(line, ' ')
        case Some((c, a)) => (c, a)
        case None => (line, "");
      if Lower(cmd) == "search" then
        if IsBlank(Strip(arg)) then Usage else Search(arg)
      else Fail(UnknownCommand)
  }

  /** A search is only ever started from a line reading `search`, in any
      case, a space and a non-blank argument, which is passed on as it
      stands. */
  lemma SearchShape(input: string)
    ensures ParseCommand(input).Search? ==>
      var line := Strip(input);
      && |line| > 7 && Lower(line[..6]) == "search" && line[6] == ' '
      && ParseCommand(input).arg == line[7..] && !IsBlank(ParseCommand(input).arg)
  {
    var line := Strip(input);
    if ParseCommand(input).Search? {
      var (cmd, arg) := Partition(line, ' ').value;
      SearchSplit(line, cmd, arg);
    }
  }

  lemma {:induction false} SearchSplit(line: string, cmd: string, arg: string)
    requires Partition(line, ' ') == Some((cmd, arg)) && Lower(cmd) == "search" && !IsBlank(Strip(arg))
    ensures |line| > 7 && Lower(line[..6]) == "search" && line[6] == ' ' && line[7..] == arg && !IsBlank(arg)
  {
    assert |cmd| == 6;
    assert line == cmd + " " + arg;
    assert line[..6] == cmd;
    assert line[7..] == arg;
    StripEmptyIffBlank(arg);
  }

  /** A word with no whitespace at either end, surrounded by blanks, is
      what the stripped line holds. */
  lemma WordLine(pad: string, w: string)
    requires IsBlank(pad) && |w| > 0 && !IsSpace(w[0]) && !IsSpace(w[|w| - 1])
    ensures Strip(pad + w + pad) == w
  {
    StripAround(pad, w, pad);
  }

  /** `exit` and `quit` are recognised in any case and with surrounding
      whitespace. */
  lemma {:induction false} ExitAnyCase(pad: string, w: string)
    requires IsBlank(pad) && (Lower(w) == "exit" || Lower(w) == "quit")
    ensures ParseCommand(pad + w + pad) == Exit
  {
    assert LowerChar(w[0]) == Lower(w)[0];
    assert LowerChar(w[3]) == Lower(w)[3];
    WordLine(pad, w);
  }

  /** How a line with a space in it is dispatched: on its first word. */
  lemma ParseTwoWords(line: string, cmd: string, arg: string)
    requires Partition(line, ' ') == Some((cmd, arg)) && |line| > 4
    ensures Dispatch(line) ==
      if Lower(cmd) != "search" then Fail(UnknownCommand)
      else if IsBlank(Strip(arg)) then Usage
      else Search(arg)
  {
    var l := Lower(line);
    assert |l| > 4;
  }

  /** A line without surrounding whitespace is dispatched as it stands. */
  lemma StrippedLine(line: string)
    requires Strip(line) == line
    ensures ParseCommand(line) == Dispatch(line)
  {
  }

  /** A word followed by a space and an argument that ends in a
      non-space character is dispatched as it stands. */
  lemma {:induction false} WordAndArgument(w: string, arg: string)
    requires |w| > 0 && !IsSpace(w[0]) && ' ' !in w
    requires !IsBlank(arg) && !IsSpace(arg[|arg| - 1])
    ensures ParseCommand(w + " " + arg) == Dispatch(w + " " + arg)
    ensures Partition(w + " " + arg, ' ') == Some((w, arg))
    ensures !IsBlank(Strip(arg))
  {
    var line := w + " " + arg;
    assert ParseCommand(line) == Dispatch(line) by {
      assert line[0] == w[0] && line[|line| - 1] == arg[|arg| - 1];
      StripOfTrimmed(line);
      StrippedLine(line);
    }
    PartitionWord(w, arg, ' ');
    StripNotBlank(arg);
  }

  /** `search` in any case followed by a space and a non-blank argument is
      a search for that argument, leading spaces of the argument included. */
  lemma {:induction false} SearchCommand(w: string, arg: string)
    requires Lower(w) == "search" && !IsBlank(arg) && !IsSpace(arg[|arg| - 1])
    ensures ParseCommand(w + " " + arg) == Search(arg)
  {
    assert !IsSpace(w[0]) by { assert LowerChar(w[0]) == Lower(w)[0]; }
    LowerKeepsSpace(w);
    WordAndArgument(w, arg);
    ParseTwoWords(w + " " + arg, w, arg);
  }

  /** `search` with nothing after it but whitespace asks for an argument. */
  lemma {:induction false} SearchWithoutArgument(w: string, pad: string)
    requires Lower(w) == "search" && IsBlank(pad)
    ensures ParseCommand(w + pad) == Usage
  {
    assert LowerChar(w[0]) == Lower(w)[0];
    assert LowerChar(w[5]) == Lower(w)[5];
    LowerKeepsSpace(w);
    StripAround("", w, pad);
    assert "" + w + pad == w + pad;
  }

  /** Only a whole line is a bare command: `exit`, `quit` or `help`
      followed by more text is an unknown command. */
  lemma {:induction false} CommandWithText(w: string, arg: string)
    requires Lower(w) == "exit" || Lower(w) == "quit" || Lower(w) == "help"
    requires !IsBlank(arg) && !IsSpace(arg[|arg| - 1])
    ensures ParseCommand(w + " " + arg) == Fail(UnknownCommand)
  {
    assert !IsSpace(w[0]) by { assert LowerChar(w[0]) == Lower(w)[0]; }
    LowerKeepsSpace(w);
    WordAndArgument(w, arg);
    ParseTwoWords(w + " " + arg, w, arg);
  }

  // ---------------------------------------------------------------------
  // Vault id

  /** The zid inside a directory name: the value of its first component,
      i.e. the second `=`-piece of the text before the first comma. */
  function ZidOf(user: Value): (r: Result<string>)
    ensures r.Ok? ==> ',' !in r.value && '=' !in r.value
  {
    var zid :- Subscript(user, "zid");
    if !zid.Str? then Err(NoAttribute(zid, "split"))
    else
      var seg := Split(zid.s, ",")[0];
      var parts := Split(seg, "=");
      if |parts| < 2 then Err("list index out of range")
      else
        assert !Contains(Split(zid.s, ",")[0], ",");
        assert !Contains(parts[1], "=");
        NotContainsChar(Split(zid.s, ",")[0], ',');
        NotContainsChar(parts[1], '=');
        PieceOfSplitLacks(seg, parts, 1);
        Ok(parts[1])
  }

  /** A piece of a split is a substring of what was split. */
  lemma PieceOfSplitLacks(seg: string, parts: seq<string>, k: nat)
    requires parts == Split(seg, "=") && k < |parts| && ',' !in seg
    ensures ',' !in parts[k]
  {
    JoinKeepsAbsent(parts, "=", ',', k);
  }

  /** The distinguished name the backend stores in `zid`. */
  function VaultDn(z: string): string {
    "Vaultzid" + "=" + z + "," + "ou=Identities,o=cuvault"
  }

  /** Splitting `a=z` or `a=z=...` on `=` puts `z` second. */
  lemma {:induction false} EqualsSplit(a: string, z: string, tail: string)
    requires '=' !in a && '=' !in z && (tail == [] || tail[0] == '=')
    ensures |Split(a + "=" + z + tail, "=")| >= 2 && Split(a + "=" + z + tail, "=")[1] == z
  {
    assert a + "=" + z + tail == a + ['='] + (z + tail);
    SplitCons(a, z + tail, '=');
    if tail == [] {
      assert z + tail == z;
      SplitNone(z, '=');
    } else {
      assert z + tail == z + ['='] + tail[1..];
      SplitCons(z, tail[1..], '=');
    }
  }

  /** The vault id is the text after the first `=` of the first
      comma-separated part, up to the next `=` if there is one, whatever
      follows the first comma and whether or not there is one. */
  lemma {:induction false} ZidOfDn(a: string, z: string, tail: string, b: string)
    requires ',' !in a && '=' !in a && ',' !in z && '=' !in z
    requires ',' !in tail && (tail == [] || tail[0] == '=')
    ensures ZidOf(Obj([("zid", Str(a + "=" + z + tail + "," + b))])) == Ok(z)
    ensures ZidOf(Obj([("zid", Str(a + "=" + z + tail))])) == Ok(z)
  {
    var seg := a + "=" + z + tail;
    assert ',' !in seg;
    assert seg + "," + b == seg + [','] + b;
    SplitCons(seg, b, ',');
    assert Split(a + "=" + z + tail + "," + b, ",")[0] == seg;
    SplitNone(seg, ',');
    EqualsSplit(a, z, tail);
  }

  /** The vault id is recovered from the distinguished name built around
      it. */
  lemma ZidRoundTrip(z: string)
    requires ',' !in z && '=' !in z
    ensures ZidOf(Obj([("zid", Str(VaultDn(z)))])) == Ok(z)
  {
    assert VaultDn(z) == "Vaultzid" + "=" + z + [] + "," + "ou=Identities,o=cuvault";
    ZidOfDn("Vaultzid", z, [], "ou=Identities,o=cuvault");
  }

  // ---------------------------------------------------------------------
  // Module authorisation

  /** The label printed for a module from `check_module_auth`'s answer:
      "SK" when it is `None` (not found or request failed), "OK" when
      truthy, "NO" otherwise. */
  function ModuleStatus(authed: Value): (r: string)
    ensures r == "SK" <==> authed == Null
    ensures r == "OK" <==> Truthy(authed)
    ensures r == "NO" <==> authed != Null && !Truthy(authed)
    ensures r == "SK" || r == "OK" || r == "NO"
  {
    if authed == Null then "SK" else if Truthy(authed) then "OK" else "NO"
  }

  /** A line of the module list: it starts with the status label. */
  predicate StatusLine(line: string) {
    |line| >= 4 && (line[..4] == "  SK" || line[..4] == "  OK" || line[..4] == "  NO")
  }

  function ModuleLine(status: string, title: Value, mod: Value): (r: string)
    requires status == "SK" || status == "OK" || status == "NO"
    ensures StatusLine(r)
  {
    var r := "  " + status + (" " + PyStr(title) + " (" + PyStr(mod) + ")");
    assert r[..4] == "  " + status;
    r
  }

  /** The status line of one `nav` entry: its `module` and `label`
      subscripted, the module's authorisation turned into a label. */
  function ModuleEntryLine(entry: Value, zid: string, auth: (Value, string) -> Value): (r: Result<string>)
    ensures r.Ok? <==> Subscript(entry, "module").Ok? && Subscript(entry, "label").Ok?
    ensures r.Ok? ==> StatusLine(r.value)
    ensures r.Ok? ==>
      r.value == ModuleLine(ModuleStatus(auth(Subscript(entry, "module").value, zid)),
                            Subscript(entry, "label").value, Subscript(entry, "module").value)
  {
    var mod :- Subscript(entry, "module");
    var title :- Subscript(entry, "label");
    Ok(ModuleLine(ModuleStatus(auth(mod, zid)), title, mod))
  }

  /** The module list printed for an identity: one line per entry of the
      `nav` list, asking `auth` (the backend's `check_module_auth`) about
      each. */
  function ModuleReport(nav: seq<Value>, zid: string, auth: (Value, string) -> Value): (r: Result<seq<string>>)
    ensures r.Ok? <==> forall k | 0 <= k < |nav| :: ModuleEntryLine(nav[k], zid, auth).Ok?
    ensures r.Ok? ==> |r.value| == |nav|
    ensures r.Ok? ==> forall k | 0 <= k < |nav| :: r.value[k] == ModuleEntryLine(nav[k], zid, auth).value
  {
    var line := (k: nat, entry: Value) => ModuleEntryLine(entry, zid, auth);
    assert forall k: nat, entry: Value :: line(k, entry) == ModuleEntryLine(entry, zid, auth);
    NumberedLines(nav, 0, line)
  }

}
